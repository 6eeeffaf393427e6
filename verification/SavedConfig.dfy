/**
 * The lines of a saved configuration: how conf_write writes the value of a boolean, tristate or string
 * symbol and how conf_read_simple reads it back (scripts/kconfig/confdata.c).
 */
module SavedConfig {
  import opened Expressions

  type Text = seq<char>

  datatype Saved = Logic(t: Tristate) | Words(s: Text)

  // ---------------------------------------------------------------- escaping

  predicate Special(c: char) {
    c == '"' || c == '\\'
  }

  function Escape(s: Text): Text {
    if s == [] then []
    else (if Special(s[0]) then ['\\', s[0]] else [s[0]]) + Escape(s[1..])
  }

  /** The text up to the closing quote; none if there is none. */
  function Decode(r: Text): Option<Text> {
    if r == [] then None
    else if r[0] == '"' then Some([])
    else if r[0] == '\\' then if |r| == 1 then None else Prefixed(r[1], Decode(r[2..]))
    else Prefixed(r[0], Decode(r[1..]))
  }

  function Prefixed(c: char, t: Option<Text>): Option<Text> {
    if t.None? then None else Some([c] + t.value)
  }

  /** Reading undoes writing, whatever follows the closing quote. */
  lemma {:induction false} DecodeEscape(s: Text, rest: Text)
    ensures Decode(Escape(s) + ['"'] + rest) == Some(s)
  {
    if s == [] {
      assert Escape(s) + ['"'] + rest == ['"'] + rest;
    } else {
      var head := if Special(s[0]) then ['\\', s[0]] else [s[0]];
      var tail := Escape(s[1..]) + ['"'] + rest;
      assert Escape(s) + ['"'] + rest == head + tail;
      assert (head + tail)[|head|..] == tail;
      DecodeEscape(s[1..], rest);
      assert [s[0]] + s[1..] == s;
    }
  }

  lemma {:induction false} EscapeOne(a: Text, c: char)
    ensures Escape(a + [c]) == Escape(a) + if Special(c) then ['\\', c] else [c]
  {
    if a == [] {
      assert (a + [c])[1..] == [];
    } else {
      assert (a + [c])[1..] == a[1..] + [c];
      EscapeOne(a[1..], c);
    }
  }

  /** A quote or backslash gets a backslash in front, any other character nothing, each on its own. */
  lemma {:induction false} EscapeEach(a: Text, b: Text, c: char)
    ensures Escape([c]) == if c == '"' || c == '\\' then ['\\', c] else [c]
    ensures Escape(a + b) == Escape(a) + Escape(b)
  {
    assert [c][1..] == [];
    if a == [] {
      assert a + b == b;
    } else {
      assert (a + b)[1..] == a[1..] + b;
      EscapeEach(a[1..], b, c);
    }
  }

  /** The writing loops of conf_write: a run of plain characters, then a run of special ones, and again. */
  method WriteEscaped(s: Text) returns (out: Text)
    ensures out == Escape(s)
  {
    out := [];
    var i := 0;
    while i < |s|
      invariant i <= |s| && out == Escape(s[..i])
      decreases |s| - i
    {
      ghost var from := i;
      while i < |s| && !Special(s[i])
        invariant from <= i <= |s| && out == Escape(s[..i])
        invariant i == from ==> i < |s|
      {
        EscapeOne(s[..i], s[i]);
        assert s[..i + 1] == s[..i] + [s[i]];
        out := out + [s[i]];
        i := i + 1;
      }
      while i < |s| && Special(s[i])
        invariant from <= i <= |s| && out == Escape(s[..i])
        invariant i == from ==> i < |s| && Special(s[i])
      {
        EscapeOne(s[..i], s[i]);
        assert s[..i + 1] == s[..i] + [s[i]];
        out := out + ['\\', s[i]];
        i := i + 1;
      }
    }
    assert s[..|s|] == s;
  }

  // ---------------------------------------------------------------- unescaping in the line buffer

  /** The characters from p up to the terminating NUL at e. */
  ghost predicate CString(line: array<char>, p: nat, e: nat)
    reads line
  {
    p <= e < line.Length && line[e] == '\0' && forall k :: p <= k < e ==> line[k] != '\0'
  }

  /** memmove(p, p + 1, strlen(p)): the string from p + 1 on, with its NUL, moves one place down. */
  method DropChar(line: array<char>, ghost start: nat, p: nat, e: nat)
    requires start <= p < e && CString(line, start, e)
    modifies line
    ensures CString(line, start, e - 1)
    ensures line[start..p] == old(line[start..p]) && line[p..e - 1] == old(line[p + 1..e])
  {
    var k := p;
    while k < e
      invariant p <= k <= e
      invariant forall j :: 0 <= j < p ==> line[j] == old(line[j])
      invariant forall j :: p <= j < k ==> line[j] == old(line[j + 1])
      invariant forall j :: k <= j < line.Length ==> line[j] == old(line[j])
    {
      line[k] := line[k + 1];
      k := k + 1;
    }
  }

  /** The text ends in a backslash with nothing to escape: the source would step over the NUL. */
  predicate Dangling(r: Text) {
    r != [] && r[0] != '"' && if r[0] == '\\' then |r| == 1 || Dangling(r[2..]) else Dangling(r[1..])
  }

  function Behind(a: Text, t: Option<Text>): Option<Text> {
    if t.None? then None else Some(a + t.value)
  }

  /** Between p and p2 the buffer holds what is decoded, between p2 and e what is not; together they give target. */
  ghost predicate Unescaping(line: array<char>, p: nat, p2: nat, e: nat, target: Option<Text>)
    reads line
  {
    p <= p2 <= e && CString(line, p, e) && !Dangling(line[p2..e]) &&
    Behind(line[p..p2], Decode(line[p2..e])) == target
  }

  /** The loop over quotes and backslashes, from p on: the buffer holds the decoded text unless no quote closes it. */
  method UnescapeInPlace(line: array<char>, p: nat, end: nat) returns (closed: bool, e: nat)
    requires CString(line, p, end) && !Dangling(line[p..end])
    modifies line
    ensures closed <==> Decode(old(line[p..end])).Some?
    ensures closed ==> CString(line, p, e) && line[p..e] == Decode(old(line[p..end])).value
  {
    var p2 := p;
    e := end;
    ghost var target := Decode(line[p..end]);
    assert line[p..p2] == [] && (target.Some? ==> [] + target.value == target.value);
    while true
      invariant Unescaping(line, p, p2, e, target)
      decreases e - p2
    {
      p2 := FindSpecial(line, p, p2, e, target);
      if line[p2] == '\0' {
        assert line[p2..e] == [];
        return false, e;
      }
      if line[p2] == '"' {
        assert line[p..p2] + [] == line[p..p2];
        line[p2] := '\0';
        return true, p2;
      }
      DropBackslash(line, p, p2, e, target);
      p2, e := p2 + 1, e - 1;
    }
  }

  /** The character behind a backslash takes its place and is kept. */
  method DropBackslash(line: array<char>, ghost p: nat, p2: nat, e: nat, ghost target: Option<Text>)
    requires p2 < e && Unescaping(line, p, p2, e, target) && line[p2] == '\\'
    modifies line
    ensures Unescaping(line, p, p2 + 1, e - 1, target)
  {
    ghost var r, kept := line[p2..e], line[p..p2];
    DropChar(line, p, p2, e);
    assert line[p2..e - 1] == r[1..];
    assert line[p..p2 + 1] == kept + [r[1]];
    assert line[p2 + 1..e - 1] == r[2..];
    Shift(kept, r[1], Decode(r[2..]));
  }

  lemma Shift(kept: Text, c: char, t: Option<Text>)
    ensures Behind(kept, Prefixed(c, t)) == Behind(kept + [c], t)
  {
    if t.Some? {
      assert kept + ([c] + t.value) == kept + [c] + t.value;
    }
  }

  /** strpbrk: the next quote or backslash, or the NUL. */
  method FindSpecial(line: array<char>, ghost p: nat, from: nat, ghost e: nat, ghost target: Option<Text>) returns (p2: nat)
    requires Unescaping(line, p, from, e, target)
    ensures from <= p2 && Unescaping(line, p, p2, e, target)
    ensures if p2 == e then line[p2] == '\0' else Special(line[p2])
  {
    p2 := from;
    while line[p2] != '\0' && !Special(line[p2])
      invariant from <= p2 && Unescaping(line, p, p2, e, target)
      decreases e - p2
    {
      ghost var r := line[p2..e];
      assert r[1..] == line[p2 + 1..e];
      assert line[p..p2 + 1] == line[p..p2] + [line[p2]];
      Shift(line[p..p2], line[p2], Decode(r[1..]));
      p2 := p2 + 1;
    }
  }

  // ---------------------------------------------------------------- whole lines

  function Line(name: Text, v: Saved): Text {
    match v
    case Logic(No) => "# CONFIG_" + name + " is not set\n"
    case Logic(Mod) => "CONFIG_" + name + "=m\n"
    case Logic(Yes) => "CONFIG_" + name + "=y\n"
    case Words(s) => "CONFIG_" + name + "=\"" + Escape(s) + "\"\n"
  }

  /** strchr: the first c from i on, or the length. */
  function IndexOf(s: Text, c: char, i: nat): (j: nat)
    requires i <= |s|
    ensures i <= j <= |s| && (j < |s| ==> s[j] == c) && forall k :: i <= k < j ==> s[k] != c
    decreases |s| - i
  {
    if i == |s| || s[i] == c then i else IndexOf(s, c, i + 1)
  }

  function StartsAt(s: Text, i: nat, w: Text): bool {
    i + |w| <= |s| && s[i..i + |w|] == w
  }

  /** The value behind the '=' for a symbol of the given type. */
  function ReadValue(p: Text, t: SymType): Option<Saved> {
    if t == Tristate3 && p != [] && p[0] == 'm' then Some(Logic(Mod))
    else if (t == Tristate3 || t == Boolean) && p != [] && p[0] == 'y' then Some(Logic(Yes))
    else if (t == Tristate3 || t == Boolean) && p != [] && p[0] == 'n' then Some(Logic(No))
    else if t == Str && p != [] && p[0] == '"' then
      var s := Decode(p[1..]);
      if s.None? then None else Some(Words(s.value))
    else None
  }

  /** One line: the name assigned to and its value, if the line assigns a declared symbol. */
  function ReadLine(line: Text, types: map<Text, SymType>): Option<(Text, Saved)> {
    if line == [] then None
    else if line[0] == '#' then
      if !StartsAt(line, 2, "CONFIG_") then None
      else
        var p := IndexOf(line, ' ', 9);
        if p == |line| || !StartsAt(line, p + 1, "is not set") then None
        else
          var name := line[9..p];
          if name in types && (types[name] == Boolean || types[name] == Tristate3) then Some((name, Logic(No))) else None
    else if !StartsAt(line, 0, "CONFIG_") then None
    else
      var p := IndexOf(line, '=', 7);
      if p == |line| then None
      else
        var name := line[7..p];
        var value := line[p + 1..IndexOf(line, '\n', p + 1)];
        if name !in types then None
        else
          var v := ReadValue(value, types[name]);
          if v.None? then None else Some((name, v.value))
  }

  /** The value suits the type. */
  predicate Suits(v: Saved, t: SymType) {
    match v
    case Logic(x) => t == Tristate3 || (t == Boolean && x != Mod)
    case Words(s) => t == Str && '\n' !in s
  }

  lemma FirstAt(s: Text, c: char, i: nat, j: nat)
    requires i <= j < |s| && s[j] == c && forall k :: i <= k < j ==> s[k] != c
    ensures IndexOf(s, c, i) == j
  {
  }

  lemma {:induction false} EscapeOneLine(s: Text)
    requires '\n' !in s
    ensures '\n' !in Escape(s)
  {
    if s != [] {
      assert s[0] in s && forall c <- s[1..] :: c in s;
      EscapeOneLine(s[1..]);
    }
  }

  /** A line "CONFIG_name=value". */
  lemma ReadAssignment(name: Text, value: Text, types: map<Text, SymType>)
    requires name in types && '=' !in name && '\n' !in value
    ensures var v := ReadValue(value, types[name]);
      ReadLine("CONFIG_" + name + "=" + value + "\n", types) == if v.None? then None else Some((name, v.value))
  {
    var line := "CONFIG_" + name + "=" + value + "\n";
    var p := 7 + |name|;
    assert line[0..7] == "CONFIG_" && line[7..p] == name;
    forall k | 7 <= k < p
      ensures line[k] != '='
    {
      assert line[k] == name[k - 7];
    }
    FirstAt(line, '=', 7, p);
    var q := p + 1 + |value|;
    forall k | p + 1 <= k < q
      ensures line[k] != '\n'
    {
      assert line[k] == value[k - p - 1];
    }
    FirstAt(line, '\n', p + 1, q);
    assert line[p + 1..q] == value;
  }

  lemma UnsetTail()
    ensures " is not set\n"[1..11] == "is not set"
  {
  }

  lemma ReadUnset(name: Text, types: map<Text, SymType>)
    requires name in types && ' ' !in name && (types[name] == Boolean || types[name] == Tristate3)
    ensures ReadLine("# CONFIG_" + name + " is not set\n", types) == Some((name, Logic(No)))
  {
    var line := "# CONFIG_" + name + " is not set\n";
    var p := 9 + |name|;
    assert line[2..9] == "CONFIG_" && line[9..p] == name;
    forall k | 9 <= k < p
      ensures line[k] != ' '
    {
      assert line[k] == name[k - 9];
    }
    FirstAt(line, ' ', 9, p);
    var tail := " is not set\n";
    assert line[p..] == tail;
    assert line[p + 1..p + 11] == tail[1..11];
    UnsetTail();
  }

  /** What was saved for a symbol is what is read back. */
  lemma SavedIsRead(name: Text, v: Saved, types: map<Text, SymType>)
    requires name in types && '=' !in name && ' ' !in name && Suits(v, types[name])
    ensures ReadLine(Line(name, v), types) == Some((name, v))
  {
    match v
    case Logic(No) => ReadUnset(name, types);
    case Logic(Mod) =>
      assert Line(name, v) == "CONFIG_" + name + "=" + "m" + "\n";
      ReadAssignment(name, "m", types);
    case Logic(Yes) =>
      assert Line(name, v) == "CONFIG_" + name + "=" + "y" + "\n";
      ReadAssignment(name, "y", types);
    case Words(s) => ReadWords(name, s, types);
  }

  lemma ReadWords(name: Text, s: Text, types: map<Text, SymType>)
    requires name in types && '=' !in name && types[name] == Str && '\n' !in s
    ensures ReadLine(Line(name, Words(s)), types) == Some((name, Words(s)))
  {
    var value := ['"'] + Escape(s) + ['"'];
    assert Line(name, Words(s)) == "CONFIG_" + name + "=" + value + "\n";
    EscapeOneLine(s);
    ReadAssignment(name, value, types);
    DecodeEscape(s, []);
    assert value[1..] == Escape(s) + ['"'] + [];
  }

  // ---------------------------------------------------------------- what else a line is for

  /** Only a symbol that is n is written as a comment; every other line assigns to the name. */
  lemma UnsetIsComment(name: Text, v: Saved)
    ensures v == Logic(No) <==> Line(name, v)[0] == '#'
    ensures v == Logic(No) ==> Line(name, v) == "# CONFIG_" + name + " is not set\n"
    ensures v != Logic(No) ==> "CONFIG_" + name + "=" <= Line(name, v)
    ensures v == Logic(Mod) ==> Line(name, v) == "CONFIG_" + name + "=" + "m\n"
    ensures v == Logic(Yes) ==> Line(name, v) == "CONFIG_" + name + "=" + "y\n"
  {
  }

  /** What is read is a value for a declared symbol, of its type. */
  lemma OnlyDeclaredRead(line: Text, types: map<Text, SymType>)
    ensures var r := ReadLine(line, types);
      r.Some? ==>
        r.value.0 in types &&
        match r.value.1
        case Logic(t) => types[r.value.0] == Tristate3 || (types[r.value.0] == Boolean && t != Mod)
        case Words(_) => types[r.value.0] == Str
  {
  }
}
