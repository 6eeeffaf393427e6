/**
 * Formatted output into a bounded buffer (_out_buffer, _out_rev, _ntoa_format, _ntoa_long and the
 * integer, %c, %s and %% conversions of _vsnprintf in plat/common/sane_printf.c).  long is taken to
 * have 64 bits.
 */
module Printf {
  import opened IntegerText

  datatype Option<T> = None | Some(value: T)

  datatype Arg = IntArg(i: int) | StrArg(s: seq<char>)

  // ---------------------------------------------------------------- the output, without a buffer

  datatype Length = Plain | Chars | Short | Long

  /** What stands between the percent sign and the conversion letter. */
  datatype Spec = Spec(f: Flags, width: nat, prec: nat, length: Length)

  const NO_FLAGS := Flags(false, false, false, false, false, false, false)

  const UINT_SIZE: nat := 0x1_0000_0000

  function Size(length: Length): nat {
    match length
    case Plain => UINT_SIZE
    case Chars => 0x100
    case Short => 0x1_0000
    case Long => 0x1_0000_0000_0000_0000
  }

  /** The values of the argument as a signed or unsigned integer of the given length. */
  function Signed(i: int, length: Length): int {
    var half := Size(length) / 2;
    (i + half) % Size(length) - half
  }

  function Unsigned(i: int, length: Length): nat {
    i % Size(length)
  }

  function Magnitude(v: int): nat {
    if v > 0 then v else 0 - v
  }

  predicate IsFlag(c: char) {
    c == '0' || c == '-' || c == '+' || c == ' ' || c == '#'
  }

  function SetFlag(f: Flags, c: char): Flags {
    match c
    case '0' => f.(zeroPad := true)
    case '-' => f.(left := true)
    case '+' => f.(plus := true)
    case ' ' => f.(space := true)
    case _ => f.(hash := true)
  }

  function ReadFlags(fmt: seq<char>, f: Flags): (r: (Flags, seq<char>))
    ensures |r.1| <= |fmt|
  {
    if fmt != [] && IsFlag(fmt[0]) then ReadFlags(fmt[1..], SetFlag(f, fmt[0])) else (f, fmt)
  }

  predicate IsDigit(c: char) {
    '0' <= c <= '9'
  }

  /** _atoi, with the wrap-around of unsigned int. */
  function ReadNumber(fmt: seq<char>, acc: nat): (r: (nat, seq<char>))
    ensures |r.1| <= |fmt|
  {
    if fmt != [] && IsDigit(fmt[0]) then
      ReadNumber(fmt[1..], (acc * 10 + (fmt[0] as nat - '0' as nat)) % UINT_SIZE)
    else (acc, fmt)
  }

  /** A specification being read, what is left of the format and of the arguments. */
  datatype Reading = Reading(spec: Spec, fmt: seq<char>, args: seq<Arg>)

  predicate NextIs(fmt: seq<char>, c: char) {
    fmt != [] && fmt[0] == c
  }

  predicate IntNext(args: seq<Arg>) {
    args != [] && args[0].IntArg?
  }

  function ReadWidth(r: Reading): Option<Reading> {
    if r.fmt != [] && IsDigit(r.fmt[0]) then
      var n := ReadNumber(r.fmt, 0);
      Some(r.(spec := r.spec.(width := n.0), fmt := n.1))
    else if NextIs(r.fmt, '*') then
      if !IntNext(r.args) then None
      else
        var w := Signed(r.args[0].i, Plain);
        var f := if w < 0 then r.spec.f.(left := true) else r.spec.f;
        Some(Reading(r.spec.(f := f, width := if w < 0 then -w else w), r.fmt[1..], r.args[1..]))
    else Some(r)
  }

  function ReadPrecision(r: Reading): Option<Reading> {
    if !NextIs(r.fmt, '.') then Some(r)
    else
      var spec := r.spec.(f := r.spec.f.(precision := true));
      var fmt := r.fmt[1..];
      if fmt != [] && IsDigit(fmt[0]) then
        var n := ReadNumber(fmt, 0);
        Some(Reading(spec.(prec := n.0), n.1, r.args))
      else if NextIs(fmt, '*') then
        if !IntNext(r.args) then None
        else
          var p := Signed(r.args[0].i, Plain);
          Some(Reading(spec.(prec := if p > 0 then p else 0), fmt[1..], r.args[1..]))
      else Some(Reading(spec, fmt, r.args))
  }

  function ReadLength(r: Reading): Reading {
    if NextIs(r.fmt, 'l') then
      r.(spec := r.spec.(length := Long), fmt := if NextIs(r.fmt[1..], 'l') then r.fmt[2..] else r.fmt[1..])
    else if NextIs(r.fmt, 'h') then
      if NextIs(r.fmt[1..], 'h') then r.(spec := r.spec.(length := Chars), fmt := r.fmt[2..])
      else r.(spec := r.spec.(length := Short), fmt := r.fmt[1..])
    else if NextIs(r.fmt, 't') || NextIs(r.fmt, 'j') || NextIs(r.fmt, 'z') then
      r.(spec := r.spec.(length := Long), fmt := r.fmt[1..])
    else r
  }

  /** Everything up to the conversion letter; none if an argument is missing or no number. */
  function ReadSpec(fmt: seq<char>, args: seq<Arg>): Option<Reading> {
    var fl := ReadFlags(fmt, NO_FLAGS);
    var w := ReadWidth(Reading(Spec(fl.0, 0, 0, Plain), fl.1, args));
    if w.None? then None
    else
      var p := ReadPrecision(w.value);
      if p.None? then None else Some(ReadLength(p.value))
  }

  lemma ReadSpecShrinks(fmt: seq<char>, args: seq<Arg>)
    ensures ReadSpec(fmt, args).Some? ==> |ReadSpec(fmt, args).value.fmt| <= |fmt|
  {
  }

  predicate IsSigned(c: char) {
    c == 'd' || c == 'i'
  }

  predicate IsInteger(c: char) {
    IsSigned(c) || c == 'u' || c == 'x' || c == 'X' || c == 'o' || c == 'b'
  }

  function Base(c: char): nat {
    match c
    case 'x' => 16
    case 'X' => 16
    case 'o' => 8
    case 'b' => 2
    case _ => 10
  }

  /** Flags that the conversion letter switches on or off. */
  function IntFlags(c: char, f: Flags): Flags {
    f.(hash := f.hash && Base(c) != 10,
       upper := c == 'X',
       plus := f.plus && IsSigned(c),
       space := f.space && IsSigned(c),
       zeroPad := f.zeroPad && !f.precision)
  }

  function IntegerOutput(c: char, spec: Spec, i: int): seq<char> {
    var f := IntFlags(c, spec.f);
    if IsSigned(c) then
      var v := Signed(i, spec.length);
      IntText(Magnitude(v), v < 0, Base(c), spec.prec, spec.width, f)
    else IntText(Unsigned(i, spec.length), false, Base(c), spec.prec, spec.width, f)
  }

  /** Text of a measured length in a field of spaces. */
  function Justified(text: seq<char>, length: nat, spec: Spec): seq<char> {
    if spec.f.left then text + Repeat(' ', spec.width - length) else Repeat(' ', spec.width - length) + text
  }

  function StringText(s: seq<char>, spec: Spec): seq<char> {
    if spec.f.precision then s[..Min(spec.prec, |s|)] else s
  }

  predicate IsOutside(c: char) {
    c == 'f' || c == 'F' || c == 'e' || c == 'E' || c == 'g' || c == 'G' || c == 'p'
  }

  /** The output of one conversion and the arguments left; none if it is not modelled or its argument is missing. */
  function Convert(c: char, spec: Spec, args: seq<Arg>): Option<(seq<char>, seq<Arg>)> {
    if IsInteger(c) then
      if IntNext(args) then Some((IntegerOutput(c, spec, args[0].i), args[1..])) else None
    else if c == 'c' then
      if IntNext(args) then Some((Justified([Unsigned(args[0].i, Chars) as char], 1, spec), args[1..])) else None
    else if c == 's' then
      if args != [] && args[0].StrArg? && |args[0].s| < UINT_SIZE then
        var text := StringText(args[0].s, spec);
        Some((Justified(text, |text|, spec), args[1..]))
      else None
    else if IsOutside(c) then None
    else Some(([c], args))
  }

  /** The whole output of a format; none if it is not well-formed. */
  function Output(fmt: seq<char>, args: seq<Arg>): Option<seq<char>>
    decreases |fmt|
  {
    if fmt == [] then Some([])
    else if fmt[0] != '%' then
      var rest := Output(fmt[1..], args);
      if rest.None? then None else Some([fmt[0]] + rest.value)
    else
      ReadSpecShrinks(fmt[1..], args);
      var r := ReadSpec(fmt[1..], args);
      if r.None? || r.value.fmt == [] then None
      else
        var t := Convert(r.value.fmt[0], r.value.spec, r.value.args);
        if t.None? then None
        else
          var rest := Output(r.value.fmt[1..], t.value.1);
          if rest.None? then None else Some(t.value.0 + rest.value)
  }

  // ---------------------------------------------------------------- a bounded buffer

  /** Text t written from index i on, as far as it lies below n. */
  function Put(b: seq<char>, i: nat, n: nat, t: seq<char>): (r: seq<char>)
    ensures |r| == |b|
  {
    seq(|b|, k requires 0 <= k < |b| => if i <= k < i + |t| && k < n then t[k - i] else b[k])
  }

  lemma PutTwice(b: seq<char>, i: nat, n: nat, t: seq<char>, u: seq<char>)
    ensures Put(Put(b, i, n, t), i + |t|, n, u) == Put(b, i, n, t + u)
  {
  }

  lemma PutNothing(b: seq<char>, i: nat, n: nat)
    ensures Put(b, i, n, []) == b
  {
  }

  /** A text and a NUL behind it, or in the last place. */
  lemma PutTerminated(b: seq<char>, n: nat, t: seq<char>)
    requires 0 < n <= |b|
    ensures var k := Min(n - 1, |t|);
      Put(Put(b, 0, n, t), k, n, ['\0']) == t[..k] + ['\0'] + b[k + 1..]
  {
  }

  /** _out_buffer */
  method Out(c: char, buffer: array<char>, idx: nat, maxlen: nat)
    requires maxlen <= buffer.Length
    modifies buffer
    ensures buffer[..] == Put(old(buffer[..]), idx, maxlen, [c])
  {
    if idx < maxlen {
      buffer[idx] := c;
    }
  }

  /** A padding loop. */
  method Pad(c: char, count: int, buffer: array<char>, start: nat, maxlen: nat) returns (idx: nat)
    requires maxlen <= buffer.Length
    modifies buffer
    ensures idx == start + |Repeat(c, count)|
    ensures buffer[..] == Put(old(buffer[..]), start, maxlen, Repeat(c, count))
  {
    idx := start;
    PutNothing(buffer[..], start, maxlen);
    assert Repeat(c, 0) == [];
    while idx - start < count
      invariant start <= idx && idx - start <= if count > 0 then count else 0
      invariant buffer[..] == Put(old(buffer[..]), start, maxlen, Repeat(c, idx - start))
      decreases count - (idx - start)
    {
      PutTwice(old(buffer[..]), start, maxlen, Repeat(c, idx - start), [c]);
      assert Repeat(c, idx - start) + [c] == Repeat(c, idx + 1 - start);
      Out(c, buffer, idx, maxlen);
      idx := idx + 1;
    }
    assert Repeat(c, idx - start) == Repeat(c, count);
  }

  /** The reversing loop of _out_rev. */
  method OutReverse(buffer: array<char>, start: nat, maxlen: nat, buf: array<char>, len: nat) returns (idx: nat)
    requires maxlen <= buffer.Length && buf != buffer && len <= buf.Length
    modifies buffer
    ensures idx == start + len && buffer[..] == Put(old(buffer[..]), start, maxlen, Reverse(buf[..len]))
  {
    ghost var b, text := buffer[..], Reverse(buf[..len]);
    PutNothing(b, start, maxlen);
    idx := start;
    var n := len;
    while n > 0
      invariant n <= len && idx == start + (len - n)
      invariant buffer[..] == Put(b, start, maxlen, text[..len - n])
    {
      n := n - 1;
      PutTwice(b, start, maxlen, text[..len - n - 1], [buf[n]]);
      assert text[..len - n - 1] + [buf[n]] == text[..len - n];
      Out(buf[n], buffer, idx, maxlen);
      idx := idx + 1;
    }
    assert text[..len] == text;
  }

  /** _out_rev */
  method OutRev(buffer: array<char>, start: nat, maxlen: nat, buf: array<char>, len: nat, width: nat, f: Flags)
    returns (idx: nat)
    requires maxlen <= buffer.Length && buf != buffer && len <= buf.Length
    modifies buffer
    ensures var t := Reversed(buf[..len], width, f);
      idx == start + |t| && buffer[..] == Put(old(buffer[..]), start, maxlen, t)
  {
    ghost var b, text := buffer[..], Reverse(buf[..len]);
    var front := if f.left || f.zeroPad then 0 else width - len;
    idx := Pad(' ', front, buffer, start, maxlen);
    idx := OutReverse(buffer, idx, maxlen, buf, len);
    PutTwice(b, start, maxlen, Repeat(' ', front), text);
    var back := if f.left then width - (idx - start) else 0;
    idx := Pad(' ', back, buffer, idx, maxlen);
    PutTwice(b, start, maxlen, Repeat(' ', front) + text, Repeat(' ', back));
  }

  /** A loop that appends zeros to the conversion buffer. */
  method AppendZeros(buf: array<char>, from: nat, n: nat) returns (len: nat)
    requires buf.Length == ROOM && from <= ROOM
    modifies buf
    ensures len <= ROOM && buf[..len] == ZerosTo(old(buf[..from]), n)
  {
    len := from;
    assert ZerosTo(buf[..from], from) == buf[..from];
    while len < n && len < ROOM
      invariant from <= len <= ROOM && (len > from ==> len <= n)
      invariant buf[..len] == old(buf[..from]) + Repeat('0', len - from)
    {
      buf[len] := '0';
      len := len + 1;
      assert Repeat('0', len - from) == Repeat('0', len - 1 - from) + ['0'];
    }
  }

  /** A character appended to the conversion buffer if there is room. */
  method Append(buf: array<char>, from: nat, c: char) returns (len: nat)
    requires buf.Length == ROOM && from <= ROOM
    modifies buf
    ensures len <= ROOM && buf[..len] == Put1(old(buf[..from]), c)
  {
    len := from;
    if len < ROOM {
      buf[len] := c;
      len := len + 1;
    }
  }

  /** The part of _ntoa_format that handles '#'. */
  method AppendPrefix(buf: array<char>, from: nat, base: nat, prec: nat, width: nat, f: Flags) returns (len: nat)
    requires buf.Length == ROOM && from <= ROOM
    modifies buf
    ensures len <= ROOM && buf[..len] == WithPrefix(old(buf[..from]), base, prec, width, f)
  {
    len := from;
    if f.hash {
      if !f.precision && len > 0 && (len == prec || len == width) {
        len := len - 1;
        if len > 0 && base == 16 {
          len := len - 1;
        }
      }
      assert buf[..len] == old(buf[..from])[..len];
      if base == 16 && !f.upper {
        len := Append(buf, len, 'x');
      } else if base == 16 && f.upper {
        len := Append(buf, len, 'X');
      } else if base == 2 {
        len := Append(buf, len, 'b');
      }
      len := Append(buf, len, '0');
    }
  }

  method AppendSign(buf: array<char>, from: nat, negative: bool, f: Flags) returns (len: nat)
    requires buf.Length == ROOM && from <= ROOM
    modifies buf
    ensures len <= ROOM && buf[..len] == old(buf[..from]) + if from < ROOM then Sign(negative, f) else []
  {
    len := from;
    if len < ROOM {
      if negative {
        len := Append(buf, len, '-');
      } else if f.plus {
        len := Append(buf, len, '+');
      } else if f.space {
        len := Append(buf, len, ' ');
      }
    }
  }

  /** Leading zeros, prefix and sign. */
  method FillBuffer(buf: array<char>, from: nat, negative: bool, base: nat, prec: nat, width: nat, f: Flags)
    returns (len: nat, w: nat)
    requires buf.Length == ROOM && from <= ROOM
    modifies buf
    ensures len <= ROOM && w == FieldWidth(negative, width, f)
    ensures buf[..len] == Filled(old(buf[..from]), negative, base, prec, w, f)
  {
    len, w := from, width;
    if !f.left {
      if w > 0 && f.zeroPad && (negative || f.plus || f.space) {
        w := w - 1;
      }
      len := AppendZeros(buf, len, prec);
      if f.zeroPad {
        len := AppendZeros(buf, len, w);
      }
    }
    len := AppendPrefix(buf, len, base, prec, w, f);
    len := AppendSign(buf, len, negative, f);
  }

  /** _ntoa_format */
  method NtoaFormat(buffer: array<char>, start: nat, maxlen: nat, buf: array<char>, from: nat, negative: bool,
                    base: nat, prec: nat, width: nat, f: Flags)
    returns (idx: nat)
    requires maxlen <= buffer.Length && buf != buffer && buf.Length == ROOM && from <= ROOM
    modifies buffer, buf
    ensures var t := FormatText(old(buf[..from]), negative, base, prec, width, f);
      idx == start + |t| && buffer[..] == Put(old(buffer[..]), start, maxlen, t)
  {
    var len, w := FillBuffer(buf, from, negative, base, prec, width, f);
    idx := OutRev(buffer, start, maxlen, buf, len, w, f);
  }

  /** _ntoa_long and _ntoa_long_long, which differ in the type of value only. */
  method Ntoa(buffer: array<char>, start: nat, maxlen: nat, value: nat, negative: bool, base: nat, prec: nat,
              width: nat, f: Flags)
    returns (idx: nat)
    requires maxlen <= buffer.Length && 2 <= base <= 16
    modifies buffer
    ensures var t := IntText(value, negative, base, prec, width, f);
      idx == start + |t| && buffer[..] == Put(old(buffer[..]), start, maxlen, t)
  {
    var buf := new char[ROOM];
    var len := 0;
    var g := if value == 0 then f.(hash := false) else f;
    if !f.precision || value != 0 {
      len := ConvertDigits(buf, value, base, f.upper);
    }
    idx := NtoaFormat(buffer, start, maxlen, buf, len, negative, base, prec, width, g);
  }

  /** What the digit loop has still to append before a round with this value. */
  predicate Pending(rest: seq<char>, value: nat, base: nat, upper: bool, room: nat)
    requires 2 <= base <= 16
  {
    rest == if value != 0 && room > 0 then Digits(value, base, upper, room) else []
  }

  /** One round of the digit loop. */
  method AppendDigit(buf: array<char>, from: nat, number: nat, base: nat, upper: bool, ghost digits: seq<char>)
    returns (value: nat)
    requires buf.Length == ROOM && from < ROOM && 2 <= base <= 16
    requires from < |digits| && buf[..from] == digits[..from]
    requires digits[from..] == Digits(number, base, upper, ROOM - from)
    modifies buf
    ensures buf[..from + 1] == digits[..from + 1]
    ensures Pending(digits[from + 1..], value, base, upper, ROOM - (from + 1))
  {
    Machine(number, base);
    assert digits[from] == digits[from..][0] && digits[from + 1..] == digits[from..][1..];
    buf[from] := DigitChar(number % base, upper);
    value := number / base;
  }

  /** The digit loop; the buffer index never leaves the buffer. */
  method ConvertDigits(buf: array<char>, number: nat, base: nat, upper: bool) returns (len: nat)
    requires buf.Length == ROOM && 2 <= base <= 16
    modifies buf
    ensures len <= ROOM && buf[..len] == Digits(number, base, upper, ROOM)
  {
    ghost var digits := Digits(number, base, upper, ROOM);
    var value := AppendDigit(buf, 0, number, base, upper, digits);
    len := MoreDigits(buf, value, base, upper, digits);
  }

  method MoreDigits(buf: array<char>, number: nat, base: nat, upper: bool, ghost digits: seq<char>) returns (len: nat)
    requires buf.Length == ROOM && 2 <= base <= 16 && 1 <= |digits| && buf[..1] == digits[..1]
    requires Pending(digits[1..], number, base, upper, ROOM - 1)
    modifies buf
    ensures len <= ROOM && buf[..len] == digits
  {
    len := 1;
    var value := number;
    while value != 0 && len < ROOM
      invariant len <= ROOM && len <= |digits| && buf[..len] == digits[..len]
      invariant Pending(digits[len..], value, base, upper, ROOM - len)
      decreases ROOM - len
    {
      value := AppendDigit(buf, len, value, base, upper, digits);
      len := len + 1;
    }
  }

  // ---------------------------------------------------------------- reading a specification

  /** The flag loop, from position p of the format on. */
  method EvalFlags(format: seq<char>, from: nat) returns (f: Flags, p: nat)
    requires from <= |format|
    ensures from <= p <= |format| && ReadFlags(format[from..], NO_FLAGS) == (f, format[p..])
  {
    f, p := NO_FLAGS, from;
    while p < |format| && IsFlag(format[p])
      invariant from <= p <= |format|
      invariant ReadFlags(format[from..], NO_FLAGS) == ReadFlags(format[p..], f)
    {
      assert format[p..][1..] == format[p + 1..];
      f := SetFlag(f, format[p]);
      p := p + 1;
    }
  }

  /** _atoi */
  method Atoi(format: seq<char>, from: nat) returns (n: nat, p: nat)
    requires from <= |format|
    ensures from <= p <= |format| && ReadNumber(format[from..], 0) == (n, format[p..])
  {
    n, p := 0, from;
    while p < |format| && IsDigit(format[p])
      invariant from <= p <= |format|
      invariant ReadNumber(format[from..], 0) == ReadNumber(format[p..], n)
    {
      assert format[p..][1..] == format[p + 1..];
      n := (n * 10 + (format[p] as nat - '0' as nat)) % UINT_SIZE;
      p := p + 1;
    }
  }

  /** Is the character at p the given one?  The format ends with a NUL. */
  predicate At(format: seq<char>, p: nat, c: char) {
    p < |format| && format[p] == c
  }

  method EvalWidth(format: seq<char>, args: seq<Arg>, from: nat, first: nat, spec: Spec)
    returns (result: Spec, p: nat, a: nat)
    requires from <= |format| && first <= |args|
    requires ReadWidth(Reading(spec, format[from..], args[first..])).Some?
    ensures from <= p <= |format| && first <= a <= |args|
    ensures ReadWidth(Reading(spec, format[from..], args[first..])) == Some(Reading(result, format[p..], args[a..]))
  {
    result, p, a := spec, from, first;
    if p < |format| && IsDigit(format[p]) {
      var n;
      n, p := Atoi(format, p);
      result := result.(width := n);
    } else if At(format, p, '*') {
      var w := Signed(args[a].i, Plain);
      if w < 0 {
        result := result.(f := result.f.(left := true), width := -w);
      } else {
        result := result.(width := w);
      }
      p, a := p + 1, a + 1;
    }
  }

  method EvalPrecision(format: seq<char>, args: seq<Arg>, from: nat, first: nat, spec: Spec)
    returns (result: Spec, p: nat, a: nat)
    requires from <= |format| && first <= |args|
    requires ReadPrecision(Reading(spec, format[from..], args[first..])).Some?
    ensures from <= p <= |format| && first <= a <= |args|
    ensures ReadPrecision(Reading(spec, format[from..], args[first..])) ==
      Some(Reading(result, format[p..], args[a..]))
  {
    result, p, a := spec, from, first;
    if At(format, p, '.') {
      result := result.(f := result.f.(precision := true));
      p := p + 1;
      assert format[from..][1..] == format[p..];
      if p < |format| && IsDigit(format[p]) {
        var n;
        n, p := Atoi(format, p);
        result := result.(prec := n);
      } else if At(format, p, '*') {
        var prec := Signed(args[a].i, Plain);
        result := result.(prec := if prec > 0 then prec else 0);
        p, a := p + 1, a + 1;
      }
    }
  }

  method EvalLength(format: seq<char>, from: nat, spec: Spec, ghost args: seq<Arg>) returns (result: Spec, p: nat)
    requires from <= |format|
    ensures from <= p <= |format|
    ensures ReadLength(Reading(spec, format[from..], args)) == Reading(result, format[p..], args)
  {
    result, p := spec, from;
    if from < |format| {
      assert format[from..][1..] == format[from + 1..];
    }
    if from + 1 < |format| {
      assert format[from..][2..] == format[from + 2..];
    }
    if At(format, p, 'l') {
      result := result.(length := Long);
      p := p + 1;
      if At(format, p, 'l') {
        p := p + 1;
      }
    } else if At(format, p, 'h') {
      result := result.(length := Short);
      p := p + 1;
      if At(format, p, 'h') {
        result := result.(length := Chars);
        p := p + 1;
      }
    } else if At(format, p, 't') || At(format, p, 'j') || At(format, p, 'z') {
      result := result.(length := Long);
      p := p + 1;
    }
  }

  method EvalSpec(format: seq<char>, args: seq<Arg>, from: nat, first: nat)
    returns (spec: Spec, p: nat, a: nat)
    requires from <= |format| && first <= |args| && ReadSpec(format[from..], args[first..]).Some?
    ensures from <= p <= |format| && first <= a <= |args|
    ensures ReadSpec(format[from..], args[first..]) == Some(Reading(spec, format[p..], args[a..]))
  {
    var f;
    f, p := EvalFlags(format, from);
    spec, p, a := EvalWidth(format, args, p, first, Spec(f, 0, 0, Plain));
    spec, p, a := EvalPrecision(format, args, p, a, spec);
    spec, p := EvalLength(format, p, spec, args[a..]);
  }

  // ---------------------------------------------------------------- conversions

  method ConvertInteger(c: char, spec: Spec, i: int, buffer: array<char>, start: nat, maxlen: nat) returns (idx: nat)
    requires maxlen <= buffer.Length && IsInteger(c)
    modifies buffer
    ensures var t := IntegerOutput(c, spec, i);
      idx == start + |t| && buffer[..] == Put(old(buffer[..]), start, maxlen, t)
  {
    var f := IntFlags(c, spec.f);
    if IsSigned(c) {
      var value := Signed(i, spec.length);
      idx := Ntoa(buffer, start, maxlen, Magnitude(value), value < 0, Base(c), spec.prec, spec.width, f);
    } else {
      idx := Ntoa(buffer, start, maxlen, Unsigned(i, spec.length), false, Base(c), spec.prec, spec.width, f);
    }
  }

  /** Characters one after the other. */
  method OutAll(text: seq<char>, buffer: array<char>, start: nat, maxlen: nat) returns (idx: nat)
    requires maxlen <= buffer.Length
    modifies buffer
    ensures idx == start + |text| && buffer[..] == Put(old(buffer[..]), start, maxlen, text)
  {
    idx := start;
    PutNothing(buffer[..], start, maxlen);
    for k := 0 to |text|
      invariant idx == start + k && buffer[..] == Put(old(buffer[..]), start, maxlen, text[..k])
    {
      PutTwice(old(buffer[..]), start, maxlen, text[..k], [text[k]]);
      assert text[..k] + [text[k]] == text[..k + 1];
      Out(text[k], buffer, idx, maxlen);
      idx := idx + 1;
    }
    assert text[..|text|] == text;
  }

  /** A character or string between its padding loops. */
  method OutJustified(text: seq<char>, spec: Spec, buffer: array<char>, start: nat, maxlen: nat) returns (idx: nat)
    requires maxlen <= buffer.Length
    modifies buffer
    ensures var t := Justified(text, |text|, spec);
      idx == start + |t| && buffer[..] == Put(old(buffer[..]), start, maxlen, t)
  {
    ghost var b := buffer[..];
    var pad := spec.width - |text|;
    if spec.f.left {
      idx := OutAll(text, buffer, start, maxlen);
      idx := Pad(' ', pad, buffer, idx, maxlen);
      PutTwice(b, start, maxlen, text, Repeat(' ', pad));
    } else {
      idx := Pad(' ', pad, buffer, start, maxlen);
      idx := OutAll(text, buffer, idx, maxlen);
      PutTwice(b, start, maxlen, Repeat(' ', pad), text);
    }
  }

  method OutConversion(c: char, spec: Spec, args: seq<Arg>, first: nat, buffer: array<char>, start: nat, maxlen: nat)
    returns (idx: nat, a: nat)
    requires maxlen <= buffer.Length && first <= |args| && Convert(c, spec, args[first..]).Some?
    modifies buffer
    ensures first <= a <= |args|
    ensures var t := Convert(c, spec, args[first..]).value;
      t.1 == args[a..] && idx == start + |t.0| && buffer[..] == Put(old(buffer[..]), start, maxlen, t.0)
  {
    a := first;
    if IsInteger(c) {
      idx := ConvertInteger(c, spec, args[a].i, buffer, start, maxlen);
      a := a + 1;
    } else if c == 'c' {
      idx := OutJustified([Unsigned(args[a].i, Chars) as char], spec, buffer, start, maxlen);
      a := a + 1;
    } else if c == 's' {
      idx := OutJustified(StringText(args[a].s, spec), spec, buffer, start, maxlen);
      a := a + 1;
    } else {
      Out(c, buffer, start, maxlen);
      idx := start + 1;
    }
  }

  // ---------------------------------------------------------------- vsnprintf

  /** The output of a format that begins with a conversion. */
  lemma OutputPercent(fmt: seq<char>, args: seq<Arg>) returns (r: Reading)
    requires fmt != [] && fmt[0] == '%' && Output(fmt, args).Some?
    ensures ReadSpec(fmt[1..], args) == Some(r) && r.fmt != [] && Convert(r.fmt[0], r.spec, r.args).Some?
    ensures var t := Convert(r.fmt[0], r.spec, r.args).value;
      Output(r.fmt[1..], t.1).Some? && Output(fmt, args).value == t.0 + Output(r.fmt[1..], t.1).value
  {
    r := ReadSpec(fmt[1..], args).value;
  }

  /** One conversion; from is the position behind the percent sign, and r what is to be read there. */
  method OutPercent(format: seq<char>, args: seq<Arg>, from: nat, first: nat, buffer: array<char>, start: nat, maxlen: nat,
                    ghost r: Reading)
    returns (idx: nat, p: nat, a: nat)
    requires maxlen <= buffer.Length && from <= |format| && first <= |args|
    requires ReadSpec(format[from..], args[first..]) == Some(r) && r.fmt != [] && Convert(r.fmt[0], r.spec, r.args).Some?
    modifies buffer
    ensures from < p <= |format| && first <= a <= |args|
    ensures var t := Convert(r.fmt[0], r.spec, r.args).value;
      format[p..] == r.fmt[1..] && args[a..] == t.1 &&
      idx == start + |t.0| && buffer[..] == Put(old(buffer[..]), start, maxlen, t.0)
  {
    var spec;
    spec, p, a := EvalSpec(format, args, from, first);
    assert r == Reading(spec, format[p..], args[a..]);
    idx, a := OutConversion(format[p], spec, args, a, buffer, start, maxlen);
    p := p + 1;
  }

  /** One character of the format, or one conversion. */
  method OutItem(format: seq<char>, args: seq<Arg>, from: nat, first: nat, buffer: array<char>, start: nat, maxlen: nat)
    returns (idx: nat, p: nat, a: nat, ghost t: seq<char>)
    requires maxlen <= buffer.Length && from < |format| && first <= |args|
    requires Output(format[from..], args[first..]).Some?
    modifies buffer
    ensures from < p <= |format| && first <= a <= |args|
    ensures idx == start + |t| && buffer[..] == Put(old(buffer[..]), start, maxlen, t)
    ensures Output(format[p..], args[a..]).Some?
    ensures Output(format[from..], args[first..]).value == t + Output(format[p..], args[a..]).value
  {
    p, a := from + 1, first;
    assert format[from..][1..] == format[p..];
    if format[from] != '%' {
      Out(format[from], buffer, start, maxlen);
      idx, t := start + 1, [format[from]];
    } else {
      ghost var r := OutputPercent(format[from..], args[a..]);
      t := Convert(r.fmt[0], r.spec, r.args).value.0;
      idx, p, a := OutPercent(format, args, p, a, buffer, start, maxlen, r);
    }
  }

  /** As much of t as leaves room for a NUL, then the NUL; what lies behind is untouched. */
  function Terminated(b: seq<char>, n: nat, t: seq<char>): seq<char>
    requires n <= |b|
  {
    if n == 0 then b
    else
      var k := Min(n - 1, |t|);
      t[..k] + ['\0'] + b[k + 1..]
  }

  /** At position p of the format and a of the arguments, idx characters of the whole output are out. */
  ghost predicate Underway(format: seq<char>, args: seq<Arg>, p: nat, a: nat, idx: nat, all: seq<char>) {
    p <= |format| && a <= |args| && idx <= |all| && Output(format[p..], args[a..]) == Some(all[idx..])
  }

  /** One round of the main loop. */
  method OutNext(format: seq<char>, args: seq<Arg>, from: nat, first: nat, buffer: array<char>, start: nat, maxlen: nat,
                 ghost all: seq<char>)
    returns (idx: nat, p: nat, a: nat)
    requires maxlen <= buffer.Length && from < |format| && Underway(format, args, from, first, start, all)
    modifies buffer
    ensures from < p && start <= idx && Underway(format, args, p, a, idx, all)
    ensures buffer[..] == Put(old(buffer[..]), start, maxlen, all[start..idx])
  {
    ghost var t;
    idx, p, a, t := OutItem(format, args, from, first, buffer, start, maxlen);
    ghost var rest := Output(format[p..], args[a..]).value;
    assert |all[start..]| == |t| + |rest|;
    assert all[start..idx] == all[start..][..|t|] == t;
    assert all[idx..] == all[start..][|t|..] == rest;
  }

  lemma PutOn(b: seq<char>, n: nat, all: seq<char>, i: nat, j: nat)
    requires i <= j <= |all|
    ensures Put(Put(b, 0, n, all[..i]), i, n, all[i..j]) == Put(b, 0, n, all[..j])
  {
    PutTwice(b, 0, n, all[..i], all[i..j]);
    assert all[..i] + all[i..j] == all[..j];
  }

  /** The main loop of _vsnprintf. */
  method OutFormat(buffer: array<char>, maxlen: nat, format: seq<char>, args: seq<Arg>) returns (idx: nat)
    requires maxlen <= buffer.Length && Output(format, args).Some?
    modifies buffer
    ensures var t := Output(format, args).value;
      idx == |t| && buffer[..] == Put(old(buffer[..]), 0, maxlen, t)
  {
    ghost var b, all := buffer[..], Output(format, args).value;
    var p, a := 0, 0;
    idx := 0;
    PutNothing(b, 0, maxlen);
    assert format[0..] == format && args[0..] == args && all[0..] == all && all[..0] == [];
    while p < |format|
      invariant Underway(format, args, p, a, idx, all)
      invariant buffer[..] == Put(b, 0, maxlen, all[..idx])
      decreases |format| - p
    {
      ghost var before := idx;
      idx, p, a := OutNext(format, args, p, a, buffer, idx, maxlen, all);
      PutOn(b, maxlen, all, before, idx);
    }
    assert all[idx..] == [];
    assert all[..idx] == all;
  }

  /** The NUL; maxlen - 1 wraps around when maxlen is 0, and then nothing is written. */
  method Terminate(buffer: array<char>, idx: nat, maxlen: nat, ghost b: seq<char>, ghost t: seq<char>)
    requires maxlen <= buffer.Length == |b| && idx == |t| && buffer[..] == Put(b, 0, maxlen, t)
    modifies buffer
    ensures buffer[..] == Terminated(b, maxlen, t)
  {
    var end := if idx < maxlen then idx else if maxlen > 0 then maxlen - 1 else 0xFFFF_FFFF_FFFF_FFFF;
    Out('\0', buffer, end, maxlen);
    if maxlen > 0 {
      PutTerminated(b, maxlen, t);
    } else {
      assert Put(b, 0, 0, t) == b;
    }
  }
  /**
   * _vsnprintf: the result is the length of the whole output, whatever maxlen is, and the buffer holds
   * a prefix of that output.
   */
  method Vsnprintf(buffer: array<char>, maxlen: nat, format: seq<char>, args: seq<Arg>) returns (written: nat)
    requires maxlen <= buffer.Length && Output(format, args).Some?
    modifies buffer
    ensures written == |Output(format, args).value|
    ensures buffer[..] == Terminated(old(buffer[..]), maxlen, Output(format, args).value)
  {
    ghost var b := buffer[..];
    written := OutFormat(buffer, maxlen, format, args);
    Terminate(buffer, written, maxlen, b, Output(format, args).value);
  }
}
