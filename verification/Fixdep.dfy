/**
 * The dependency scanner: which configuration names a source file uses, each recorded once in a
 * newline-separated string (scripts/basic/fixdep.c).
 */
module Fixdep {

  type Text = seq<char>

  // ---------------------------------------------------------------- the configuration string

  predicate OneLine(s: Text) {
    '\n' !in s
  }

  /** A newline, then every name with a newline behind it. */
  function Store(names: seq<Text>): (s: Text)
    ensures |s| > 0 && s[|s| - 1] == '\n'
  {
    if names == [] then ['\n'] else Store(names[..|names| - 1]) + names[|names| - 1] + ['\n']
  }

  /** The comparison is_defined_config makes at position i. */
  predicate MatchAt(s: Text, i: nat, name: Text) {
    0 < i && i + |name| < |s| && s[i - 1] == '\n' && s[i + |name|] == '\n' && s[i..i + |name|] == name
  }

  /** A name that was stored is found. */
  lemma {:induction false} StoredMatches(names: seq<Text>, k: nat) returns (i: nat)
    requires k < |names|
    ensures MatchAt(Store(names), i, names[k])
  {
    var front, last := names[..|names| - 1], names[|names| - 1];
    var s := Store(front);
    assert Store(names) == s + last + ['\n'];
    if k == |names| - 1 {
      i := |s|;
      assert (s + last + ['\n'])[i..i + |last|] == last;
    } else {
      i := StoredMatches(front, k);
      assert front[k] == names[k];
      assert (s + last + ['\n'])[i..i + |names[k]|] == s[i..i + |names[k]|];
    }
  }

  lemma NoBreaks(s: Text, i: nat, name: Text)
    requires OneLine(name) && i + |name| <= |s| && s[i..i + |name|] == name
    ensures forall j :: i <= j < i + |name| ==> s[j] != '\n'
  {
    forall j | i <= j < i + |name|
      ensures s[j] != '\n'
    {
      assert s[j] == name[j - i];
    }
  }

  /** What is found was stored: the match cannot begin or end inside another name. */
  lemma {:induction false} MatchesAreStored(names: seq<Text>, i: nat, name: Text)
    requires (forall n <- names :: OneLine(n)) && OneLine(name) && MatchAt(Store(names), i, name)
    ensures name in names
  {
    var whole := Store(names);
    NoBreaks(whole, i, name);
    if names != [] {
      var front, last := names[..|names| - 1], names[|names| - 1];
      var s := Store(front);
      assert whole == s + last + ['\n'];
      assert last in names && forall n <- front :: n in names;
      assert whole[|s| - 1] == '\n';
      if i < |s| {
        assert s[i..i + |name|] == whole[i..i + |name|];
        MatchesAreStored(front, i, name);
      } else {
        LastMatch(s, last, i, name);
      }
    }
  }

  lemma LastMatch(s: Text, last: Text, i: nat, name: Text)
    requires OneLine(last) && |s| <= i && MatchAt(s + last + ['\n'], i, name)
    ensures name == last
  {
    var whole := s + last + ['\n'];
    assert whole[|s|..|s| + |last|] == last;
    NoBreaks(whole, |s|, last);
    assert i == |s| && |name| == |last|;
  }

  /** A name that is found nowhere was not stored. */
  lemma NotStored(names: seq<Text>, s: Text, name: Text)
    requires s == Store(names) && forall i: nat :: i + |name| < |s| ==> !MatchAt(s, i, name)
    ensures name !in names
  {
    forall k | 0 <= k < |names|
      ensures names[k] != name
    {
      var i := StoredMatches(names, k);
    }
  }

  function Lower(c: char): char {
    if 'A' <= c <= 'Z' then c - 'A' + 'a' else c
  }

  /** The printed form of a name. */
  function PathChar(c: char): char {
    if c == '_' then '/' else Lower(c)
  }

  function PathOf(name: Text): (r: Text)
    ensures |r| == |name|
  {
    seq(|name|, i requires 0 <= i < |name| => PathChar(name[i]))
  }

  // ---------------------------------------------------------------- identifiers and prefixes

  predicate IsIdent(c: char) {
    'a' <= c <= 'z' || 'A' <= c <= 'Z' || '0' <= c <= '9' || c == '_'
  }

  /** By the codes of ASCII: letters, digits and the underscore. */
  lemma IdentExactly(c: char)
    ensures IsIdent(c) <==>
      (var n := c as int; 97 <= n <= 122 || 65 <= n <= 90 || 48 <= n <= 57 || n == 95)
  {
  }

  /** Where the identifier characters from i on end. */
  function IdentEnd(file: Text, i: nat): (j: nat)
    requires i <= |file|
    ensures i <= j <= |file| && forall k :: i <= k < j ==> IsIdent(file[k])
    ensures j < |file| ==> !IsIdent(file[j])
    decreases |file| - i
  {
    if i < |file| && IsIdent(file[i]) then IdentEnd(file, i + 1) else i
  }

  /** The first character of a maximal identifier. */
  predicate IsStart(file: Text, i: nat) {
    i < |file| && IsIdent(file[i]) && (i > 0 ==> !IsIdent(file[i - 1]))
  }

  predicate LongPrefix(w: Text) {
    w == "CONFIG" || w == "ENABLE" || w == "IF_NOT"
  }

  /** The length of the prefix found at position i, or 0. */
  function Offset(file: Text, i: nat): nat
    requires i + 3 <= |file|
  {
    if i + 7 < |file| && file[i + 6] == '_' && LongPrefix(file[i..i + 6]) then 7
    else if file[i] == 'I' && file[i + 1] == 'F' && file[i + 2] == '_' then 3
    else 0
  }

  /** The name behind the prefix at i. */
  function Suffix(file: Text, i: nat): Text
    requires i + 3 <= |file| && Offset(file, i) != 0
  {
    file[i + Offset(file, i)..IdentEnd(file, i + Offset(file, i))]
  }

  /** A maximal identifier at i has a prefix and a name behind it. */
  predicate Uses(file: Text, i: nat) {
    IsStart(file, i) && i + 3 <= |file| && Offset(file, i) != 0 && Suffix(file, i) != []
  }

  /** A name the scan may record: it follows some prefix, not necessarily that of a maximal identifier. */
  ghost predicate Follows(file: Text, name: Text) {
    exists i: nat :: i + 3 <= |file| && Offset(file, i) != 0 && name == Suffix(file, i)
  }

  /** The long prefixes, on any maximal identifier with something behind them. */
  lemma LongPrefixUses(file: Text, i: nat)
    requires IsStart(file, i) && i + 7 < IdentEnd(file, i) && LongPrefix(file[i..i + 6]) && file[i + 6] == '_'
    ensures Uses(file, i) && Suffix(file, i) == file[i + 7..IdentEnd(file, i)]
  {
    EndSame(file, i, i + 7);
  }

  lemma {:induction false} EndSame(file: Text, i: nat, k: nat)
    requires i <= k <= |file| && forall j :: i <= j < k ==> IsIdent(file[j])
    ensures IdentEnd(file, i) == IdentEnd(file, k)
    decreases k - i
  {
    if i < k {
      EndSame(file, i + 1, k);
    }
  }

  lemma PrefixIdent(file: Text, i: nat)
    requires i + 3 <= |file| && Offset(file, i) != 0
    ensures i + Offset(file, i) <= |file| && forall j :: i <= j < i + Offset(file, i) ==> IsIdent(file[j])
  {
    if Offset(file, i) == 7 {
      var w := file[i..i + 6];
      assert forall j :: 0 <= j < 6 ==> file[i + j] == w[j];
      assert forall j :: 0 <= j < 6 ==> IsIdent(w[j]);
      forall j | i <= j < i + 7
        ensures IsIdent(file[j])
      {
        if j < i + 6 {
          assert file[i + (j - i)] == w[j - i];
        }
      }
    }
  }

  // ---------------------------------------------------------------- the scanner

  class Scanner {
    /** str_config, size_config and len_config. */
    var str: array<char>
    var len: nat
    /** What use_config has printed. */
    var printed: seq<Text>
    /** The names defined since the last clearing. */
    ghost var names: seq<Text>

    ghost predicate Valid()
      reads this, str
    {
      len <= str.Length && str[..len] == Store(names) && forall n <- names :: OneLine(n)
    }

    constructor ()
      ensures Valid() && names == [] && printed == [] && fresh(str)
    {
      str := new char[0];
      len := 0;
      printed := [];
      names := [];
      new;
      Clear();
    }

    /** grow_config: twice the size, at least 4096, until n more characters fit. */
    method Grow(n: nat)
      requires len <= str.Length
      modifies this`str
      ensures len + n <= str.Length && str[..len] == old(str[..len])
      ensures str == old(str) || fresh(str)
    {
      var size := str.Length;
      while len + n > size
        invariant size >= str.Length
        decreases len + n - size
      {
        if size == 0 {
          size := 2048;
        }
        size := size * 2;
      }
      if size > str.Length {
        var bigger := new char[size];
        forall k | 0 <= k < len {
          bigger[k] := str[k];
        }
        str := bigger;
      }
    }

    /** define_config on the raw string. */
    method AppendLine(name: Text)
      requires len <= str.Length
      modifies this`str, this`len, str
      ensures len <= str.Length && str[..len] == old(str[..len]) + name + ['\n']
      ensures str == old(str) || fresh(str)
    {
      Grow(|name| + 1);
      forall k | 0 <= k < |name| {
        str[len + k] := name[k];
      }
      len := len + |name|;
      str[len] := '\n';
      len := len + 1;
    }

    /** clear_config */
    method Clear()
      requires len <= str.Length
      modifies this`str, this`len, this`names, str
      ensures Valid() && names == []
      ensures str == old(str) || fresh(str)
    {
      len := 0;
      AppendLine([]);
      names := [];
      assert str[..len] == [] + [] + ['\n'];
    }

    /** is_defined_config answers exactly whether the name was defined. */
    method IsDefined(name: Text) returns (found: bool)
      requires Valid() && OneLine(name)
      ensures found <==> name in names
    {
      var p := 1;
      while p < len - |name|
        invariant 1 <= p
        invariant forall i: nat :: i < p ==> !MatchAt(str[..len], i, name)
      {
        if str[p - 1] == '\n' && str[p + |name|] == '\n' && str[p..p + |name|] == name {
          assert str[..len][p..p + |name|] == str[p..p + |name|];
          MatchesAreStored(names, p, name);
          return true;
        }
        assert str[..len][p..p + |name|] == str[p..p + |name|] || p + |name| >= len;
        p := p + 1;
      }
      NotStored(names, str[..len], name);
      found := false;
    }

    /** use_config: a new name is recorded and printed, a known one ignored. */
    method UseConfig(name: Text)
      requires Valid() && OneLine(name)
      modifies this, str
      ensures Valid() && (str == old(str) || fresh(str))
      ensures if name in old(names) then names == old(names) && printed == old(printed)
        else names == old(names) + [name] && printed == old(printed) + [PathOf(name)]
    {
      var known := IsDefined(name);
      if known {
        return;
      }
      AppendLine(name);
      ghost var before := names;
      names := names + [name];
      assert names[..|names| - 1] == before;
      printed := printed + [PathOf(name)];
    }

    /** Names are recorded and printed at most once. */
    ghost predicate Once()
      reads this
    {
      (forall i, j :: 0 <= i < j < |names| ==> names[i] != names[j]) &&
      |printed| == |names| && forall i :: 0 <= i < |names| ==> printed[i] == PathOf(names[i])
    }

    /** Names used up to position p are known, and every name is an old one or follows a prefix. */
    ghost predicate Scanned(file: Text, p: nat, before: seq<Text>)
      reads this
    {
      before <= names && (forall i: nat :: i < p && Uses(file, i) ==> Suffix(file, i) in names) &&
      forall n <- names :: n in before || Follows(file, n)
    }

    /** parse_config_file misses no name of a maximal identifier and invents none. */
    method ParseConfigFile(file: Text)
      requires Valid() && Once()
      modifies this, str
      ensures Valid() && Once() && old(names) <= names
      ensures forall i: nat :: Uses(file, i) ==> Suffix(file, i) in names
      ensures forall n <- names :: n in old(names) || Follows(file, n)
    {
      var p := 0;
      while p <= |file| - 3
        invariant 0 <= p && Valid() && Once() && Scanned(file, p, old(names))
        invariant str == old(str) || fresh(str)
        decreases |file| - p
      {
        p := ParseAt(file, p, old(names));
      }
    }

    /** One round of the scan. */
    method ParseAt(file: Text, from: nat, ghost before: seq<Text>) returns (p: nat)
      requires from + 3 <= |file| && Valid() && Once() && Scanned(file, from, before)
      modifies this, str
      ensures from < p && Valid() && Once() && Scanned(file, p, before)
      ensures str == old(str) || fresh(str)
    {
      p := from;
      if !IsIdent(file[p]) {
        p := p + 1;
        return;
      }
      var off := PrefixAt(file, p);
      if off == 0 {
        p := SkipIdentifier(file, from);
      } else {
        PrefixIdent(file, from);
        UseSuffix(file, from, off, before);
        p := p + off + 1;
      }
      ScannedMore(file, from, p, before);
    }

    /** Behind the first character of an identifier nothing is used. */
    lemma ScannedMore(file: Text, from: nat, p: nat, before: seq<Text>)
      requires Scanned(file, from, before) && from < p && (Uses(file, from) ==> Suffix(file, from) in names)
      requires forall k :: from <= k < p - 1 && k < |file| ==> IsIdent(file[k])
      ensures Scanned(file, p, before)
    {
      NoStarts(file, from, p);
    }

    /** The name behind a prefix. */
    method UseSuffix(file: Text, from: nat, off: nat, ghost before: seq<Text>)
      requires from + 3 <= |file| && off == Offset(file, from) != 0 && from + off <= |file|
      requires Valid() && Once() && Scanned(file, from, before)
      modifies this, str
      ensures Valid() && Once() && Scanned(file, from, before)
      ensures Suffix(file, from) != [] ==> Suffix(file, from) in names
      ensures str == old(str) || fresh(str)
    {
      var p := from + off;
      var q := EndOfIdentifier(file, p);
      if q != p {
        assert file[p..q] == Suffix(file, from);
        UseConfig(file[p..q]);
      }
    }
  }

  /** The comparisons with the four prefixes. */
  method PrefixAt(file: Text, p: nat) returns (off: nat)
    requires p + 3 <= |file|
    ensures off == Offset(file, p)
  {
    if p < |file| - 7 && file[p + 6] == '_' {
      if file[p..p + 6] == "CONFIG" || file[p..p + 6] == "ENABLE" || file[p..p + 6] == "IF_NOT" {
        return 7;
      }
    }
    off := if file[p] == 'I' && file[p + 1] == 'F' && file[p + 2] == '_' then 3 else 0;
  }

  /** Past the identifier characters from p on, and one further. */
  method SkipIdentifier(file: Text, from: nat) returns (p: nat)
    requires from + 3 <= |file|
    ensures from < p && forall k :: from <= k < p - 1 && k < |file| ==> IsIdent(file[k])
  {
    p := from;
    while p <= |file| - 3 && IsIdent(file[p])
      invariant from <= p && forall k :: from <= k < p && k < |file| ==> IsIdent(file[k])
      decreases |file| - p
    {
      p := p + 1;
    }
    p := p + 1;
  }

  method EndOfIdentifier(file: Text, p: nat) returns (q: nat)
    requires p <= |file|
    ensures q == IdentEnd(file, p)
  {
    q := p;
    while q < |file| && IsIdent(file[q])
      invariant p <= q <= |file| && IdentEnd(file, p) == IdentEnd(file, q)
    {
      q := q + 1;
    }
  }

  /** No maximal identifier begins inside another. */
  lemma NoStarts(file: Text, from: nat, p: nat)
    requires forall k :: from <= k < p - 1 && k < |file| ==> IsIdent(file[k])
    ensures forall i :: from < i < p ==> !IsStart(file, i)
  {
  }

  // ---------------------------------------------------------------- printed paths

  predicate IsUpper(c: char) {
    'A' <= c <= 'Z'
  }

  /** The path has a directory for every underscore and no upper-case letter, and is the name otherwise. */
  lemma PathFollowsName(name: Text, i: nat)
    requires i < |name| && name[i] != '/'
    ensures var p := PathOf(name)[i];
      (p == '/' <==> name[i] == '_') && !IsUpper(p) &&
      (IsUpper(name[i]) ==> p as int == name[i] as int + 32) &&
      (!IsUpper(name[i]) && name[i] != '_' ==> p == name[i])
  {
  }

  /** Names share a path only if they are the same but for upper and lower case. */
  lemma SharedPath(m: Text, n: Text)
    requires (forall c <- m :: c != '/') && (forall c <- n :: c != '/')
    ensures PathOf(m) == PathOf(n) <==> |m| == |n| && forall i :: 0 <= i < |m| ==> Lower(m[i]) == Lower(n[i])
  {
    var p, q := PathOf(m), PathOf(n);
    if p == q {
      forall i | 0 <= i < |m|
        ensures Lower(m[i]) == Lower(n[i])
      {
        assert m[i] in m && n[i] in n && p[i] == q[i];
        PathFollowsName(m, i);
        PathFollowsName(n, i);
      }
    }
    if |m| == |n| && forall i :: 0 <= i < |m| ==> Lower(m[i]) == Lower(n[i]) {
      forall i | 0 <= i < |m|
        ensures p[i] == q[i]
      {
        assert m[i] in m && n[i] in n;
        PathFollowsName(m, i);
        PathFollowsName(n, i);
      }
    }
  }

  // ---------------------------------------------------------------- the prefixes

  /** The text goes on with w at position i. */
  predicate GoesOn(file: Text, i: nat, w: Text) {
    i + |w| <= |file| && file[i..i + |w|] == w
  }

  /** A prefix is found exactly where one of the four words stands; the long ones need a character behind them. */
  lemma PrefixesExactly(file: Text, i: nat)
    requires i + 3 <= |file|
    ensures Offset(file, i) == 7 <==>
      i + 7 < |file| && (GoesOn(file, i, "CONFIG_") || GoesOn(file, i, "ENABLE_") || GoesOn(file, i, "IF_NOT_"))
    ensures Offset(file, i) == 3 <==> Offset(file, i) != 7 && GoesOn(file, i, "IF_")
    ensures Offset(file, i) in {0, 3, 7}
  {
    if i + 7 < |file| {
      assert file[i..i + 7] == file[i..i + 6] + [file[i + 6]];
      assert "CONFIG_" == "CONFIG" + ['_'] && "ENABLE_" == "ENABLE" + ['_'] && "IF_NOT_" == "IF_NOT" + ['_'];
      LastApart(file[i..i + 6], file[i + 6], "CONFIG");
      LastApart(file[i..i + 6], file[i + 6], "ENABLE");
      LastApart(file[i..i + 6], file[i + 6], "IF_NOT");
    }
    assert file[i..i + 3] == [file[i], file[i + 1], file[i + 2]];
    assert "IF_" == ['I', 'F', '_'];
  }

  lemma LastApart(s: Text, c: char, w: Text)
    requires |s| == |w|
    ensures s + [c] == w + ['_'] <==> s == w && c == '_'
  {
    var x, y := s + [c], w + ['_'];
    if x == y {
      assert x[..|s|] == s && y[..|s|] == w && x[|s|] == c && y[|s|] == '_';
    }
  }
}
