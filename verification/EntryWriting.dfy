/**
 * Writing an entry field by field, each at the place its accessor computes from the bytes already
 * written, and reading it back (NODE_Init in app/node.c, accessors in include/evrnet/node.h).
 */
module EntryWriting {
  import opened EntryLayout

  type Bytes = seq<Byte>

  /** The contents of a C string. */
  predicate IsText(s: Bytes) {
    0 !in s
  }

  /** The field contents; ips, uuid, cap and memSz are the bytes of the integers. */
  datatype Fields = Fields(name: Bytes, ips: Bytes, uuid: Bytes, version: Bytes, cap: Bytes, memSz: Bytes,
                           texts: seq<Bytes>)
  {
    ghost predicate Valid() {
      IsText(name) && IsText(version) && |uuid| == 16 && |cap| == 4 && |memSz| == 4 &&
      |texts| == 5 && (forall t <- texts :: IsText(t)) && |ips| % 4 == 0 && |ips| / 4 < 256
    }
  }

  function Zeros(n: nat): (z: Bytes)
    ensures |z| == n && forall i :: 0 <= i < n ==> z[i] == 0
  {
    seq(n, _ => 0)
  }

  function Pad4(s: Bytes): Bytes {
    s + Zeros(Up4(|s|) - |s|)
  }

  function Pad8(s: Bytes): Bytes {
    s + Zeros(Up8(|s|) - |s|)
  }

  // ---------------------------------------------------------------- the written form, part by part

  /** h is the size, the number of addresses and the distance. */
  function UpToName(h: Bytes, f: Fields): Bytes {
    h + f.name + [0]
  }

  function UpToIps(h: Bytes, f: Fields): Bytes {
    Pad4(UpToName(h, f)) + f.ips
  }

  function UpToUuid(h: Bytes, f: Fields): Bytes {
    Pad8(UpToIps(h, f)) + f.uuid
  }

  function UpToVersion(h: Bytes, f: Fields): Bytes {
    UpToUuid(h, f) + f.version + [0]
  }

  function UpToMemSz(h: Bytes, f: Fields): Bytes {
    Pad4(UpToVersion(h, f)) + f.cap + f.memSz
  }

  /** With the first n of the strings. */
  function UpToText(h: Bytes, f: Fields, n: nat): Bytes
    requires n <= |f.texts|
  {
    if n == 0 then UpToMemSz(h, f) else UpToText(h, f, n - 1) + f.texts[n - 1] + [0]
  }

  function Written(h: Bytes, f: Fields): Bytes {
    Pad8(UpToText(h, f, |f.texts|))
  }

  ghost predicate Header(h: Bytes, f: Fields) {
    |h| == 4 && h[2] as int * 4 == |f.ips|
  }

  // ---------------------------------------------------------------- every accessor finds its field

  /** The bytes at off are data. */
  predicate Reads(c: Bytes, off: nat, data: Bytes) {
    off + |data| <= |c| && c[off..off + |data|] == data
  }

  /** The string at off is s: its length is found and its bytes are read. */
  predicate ReadsText(c: Bytes, off: nat, s: Bytes) {
    StrLen(c, off) == |s| && Reads(c, off, s)
  }

  /** The string written at the end of a prefix is measured correctly whatever follows. */
  lemma {:induction false} StrLenOfText(c: Bytes, a: Bytes, s: Bytes)
    requires IsText(s) && a + s + [0] <= c
    ensures StrLen(c, |a|) == |s|
    decreases |s|
  {
    var p := a + s + [0];
    assert c[|a|] == p[|a|];
    if s != [] {
      assert p[|a|] == s[0] && s[0] in s;
      assert a + s + [0] == (a + [s[0]]) + s[1..] + [0];
      StrLenOfText(c, a + [s[0]], s[1..]);
    }
  }

  lemma ReadsAfter(c: Bytes, a: Bytes, s: Bytes)
    requires a + s <= c
    ensures Reads(c, |a|, s)
  {
    assert c[..|a + s|] == a + s;
  }

  lemma ReadsTextAfter(c: Bytes, a: Bytes, s: Bytes)
    requires IsText(s) && a + s + [0] <= c
    ensures ReadsText(c, |a|, s)
  {
    StrLenOfText(c, a, s);
    assert a + s <= a + s + [0];
    ReadsAfter(c, a, s);
  }

  lemma FindIps(h: Bytes, f: Fields, c: Bytes)
    requires Header(h, f) && f.Valid() && UpToName(h, f) <= c
    ensures IpsOff(c) == |Pad4(UpToName(h, f))|
  {
    StrLenOfText(c, h, f.name);
  }

  lemma FindUuid(h: Bytes, f: Fields, c: Bytes)
    requires Header(h, f) && f.Valid() && UpToIps(h, f) <= c
    ensures IpsOff(c) == |Pad4(UpToName(h, f))| && UuidOff(c) == |Pad8(UpToIps(h, f))|
    ensures Reads(c, IpsOff(c), f.ips)
  {
    assert UpToName(h, f) <= Pad4(UpToName(h, f)) <= UpToIps(h, f);
    FindIps(h, f, c);
    assert ByteAt(c, 2) == h[2];
    ReadsAfter(c, Pad4(UpToName(h, f)), f.ips);
  }

  lemma FindVersion(h: Bytes, f: Fields, c: Bytes)
    requires Header(h, f) && f.Valid() && UpToUuid(h, f) <= c
    ensures VersionOff(c) == |UpToUuid(h, f)| && Reads(c, UuidOff(c), f.uuid)
  {
    assert UpToIps(h, f) <= Pad8(UpToIps(h, f)) <= UpToUuid(h, f);
    FindUuid(h, f, c);
    ReadsAfter(c, Pad8(UpToIps(h, f)), f.uuid);
  }

  lemma FindCap(h: Bytes, f: Fields, c: Bytes)
    requires Header(h, f) && f.Valid() && UpToVersion(h, f) <= c
    ensures CapOff(c) == |Pad4(UpToVersion(h, f))|
    ensures ReadsText(c, VersionOff(c), f.version)
  {
    assert UpToUuid(h, f) <= UpToVersion(h, f);
    FindVersion(h, f, c);
    ReadsTextAfter(c, UpToUuid(h, f), f.version);
  }

  lemma FindMemSz(h: Bytes, f: Fields, c: Bytes)
    requires Header(h, f) && f.Valid() && UpToMemSz(h, f) <= c
    ensures CapOff(c) + 8 == |UpToMemSz(h, f)|
    ensures Reads(c, CapOff(c), f.cap) && Reads(c, CapOff(c) + 4, f.memSz)
  {
    assert UpToVersion(h, f) <= Pad4(UpToVersion(h, f)) <= UpToMemSz(h, f);
    FindCap(h, f, c);
    var p := Pad4(UpToVersion(h, f));
    assert p + f.cap <= p + f.cap + f.memSz;
    ReadsAfter(c, p, f.cap);
    ReadsAfter(c, p + f.cap, f.memSz);
  }

  lemma {:induction false} FindText(h: Bytes, f: Fields, c: Bytes, n: nat)
    requires Header(h, f) && f.Valid() && n <= 5 && UpToText(h, f, n) <= c
    ensures TextOff(c, n) == |UpToText(h, f, n)|
    ensures UpToMemSz(h, f) <= c
  {
    if n == 0 {
      FindMemSz(h, f, c);
    } else {
      assert UpToText(h, f, n - 1) <= UpToText(h, f, n);
      FindText(h, f, c, n - 1);
      StrLenOfText(c, UpToText(h, f, n - 1), f.texts[n - 1]);
    }
  }

  lemma {:induction false} TextPrefix(h: Bytes, f: Fields, i: nat, n: nat)
    requires i <= n <= |f.texts|
    ensures UpToText(h, f, i) <= UpToText(h, f, n)
  {
    if i < n {
      TextPrefix(h, f, i, n - 1);
    }
  }

  lemma FindLastText(h: Bytes, f: Fields, c: Bytes, i: nat)
    requires Header(h, f) && f.Valid() && i < 5 && UpToText(h, f, i + 1) <= c
    ensures ReadsText(c, TextOff(c, i), f.texts[i])
    ensures TextOff(c, i) + |f.texts[i]| + 1 == |UpToText(h, f, i + 1)|
  {
    assert UpToText(h, f, i) <= UpToText(h, f, i + 1);
    FindText(h, f, c, i);
    assert f.texts[i] in f.texts;
    ReadsTextAfter(c, UpToText(h, f, i), f.texts[i]);
  }

  /** The parts are prefixes of the whole. */
  lemma Parts(h: Bytes, f: Fields)
    requires f.Valid()
    ensures var c := Written(h, f);
      UpToName(h, f) <= c && UpToIps(h, f) <= c && UpToUuid(h, f) <= c && UpToVersion(h, f) <= c && UpToMemSz(h, f) <= c
  {
    TextPrefix(h, f, 0, 5);
    assert UpToText(h, f, 0) <= Written(h, f);
    assert UpToVersion(h, f) <= Pad4(UpToVersion(h, f)) <= UpToMemSz(h, f);
    assert UpToUuid(h, f) <= UpToVersion(h, f);
    assert UpToIps(h, f) <= Pad8(UpToIps(h, f)) <= UpToUuid(h, f);
    assert UpToName(h, f) <= Pad4(UpToName(h, f)) <= UpToIps(h, f);
  }

  /** In a written entry every accessor reads back its field; in front stand size, number and distance. */
  lemma ReadsBack(h: Bytes, f: Fields, i: nat)
    requires Header(h, f) && f.Valid() && i < 5
    ensures var c := Written(h, f);
      c[..4] == h && ReadsText(c, 4, f.name) && Reads(c, IpsOff(c), f.ips) && Reads(c, UuidOff(c), f.uuid) &&
      ReadsText(c, VersionOff(c), f.version) && Reads(c, CapOff(c), f.cap) && Reads(c, CapOff(c) + 4, f.memSz) &&
      ReadsText(c, TextOff(c, i), f.texts[i])
  {
    var c := Written(h, f);
    Parts(h, f);
    ReadsTextAfter(c, h, f.name);
    FindUuid(h, f, c);
    FindVersion(h, f, c);
    FindCap(h, f, c);
    FindMemSz(h, f, c);
    TextPrefix(h, f, i + 1, 5);
    FindLastText(h, f, c, i);
    HeaderStays(h, f, 5);
    assert h <= c;
  }

  /** The fields lie one after the other. */
  lemma InOrder(h: Bytes, f: Fields)
    requires Header(h, f) && f.Valid()
    ensures var c := Written(h, f);
      4 + |f.name| + 1 <= IpsOff(c) && IpsOff(c) + |f.ips| <= UuidOff(c) &&
      VersionOff(c) + |f.version| + 1 <= CapOff(c)
  {
    var c := Written(h, f);
    Parts(h, f);
    FindUuid(h, f, c);
    FindVersion(h, f, c);
    FindCap(h, f, c);
  }

  /** So do the strings at the end. */
  lemma TextsInOrder(h: Bytes, f: Fields, i: nat)
    requires Header(h, f) && f.Valid() && i < 4
    ensures TextOff(Written(h, f), i) + |f.texts[i]| + 1 == TextOff(Written(h, f), i + 1)
  {
    var c := Written(h, f);
    TextPrefix(h, f, i + 1, 5);
    assert UpToText(h, f, i + 1) <= c;
    FindLastText(h, f, c, i);
    FindText(h, f, c, i + 1);
  }

  /** ENTRY_CALC_SIZE is the length of the written entry exactly if that fits 16 bits. */
  lemma SizeIsLength(h: Bytes, f: Fields)
    requires Header(h, f) && f.Valid()
    ensures var c := Written(h, f);
      |c| == Up8(EndOff(c)) && (CalcSizeOf(c) == |c| <==> |c| < 65536)
  {
    FindLastText(h, f, Written(h, f), 4);
    SixteenBits(EndOff(Written(h, f)));
  }

  /** ENTRY_CALC_SIZE by the entry's own bytes. */
  function CalcSizeOf(c: Bytes): nat {
    Up8(EndOff(c)) % 65536
  }

  // ---------------------------------------------------------------- NODE_Init

  /** The buffer begins with p and is zero beyond. */
  ghost predicate Holds(buf: Bytes, p: Bytes) {
    |p| <= |buf| && buf == p + Zeros(|buf| - |p|)
  }

  /** memcpy or strcpy to a place at or after the end of what has been written. */
  method Put(buf: array<Byte>, off: nat, data: Bytes, ghost p: Bytes)
    requires Holds(buf[..], p) && |p| <= off && off + |data| <= buf.Length
    modifies buf
    ensures Holds(buf[..], p + Zeros(off - |p|) + data)
  {
    for i := 0 to |data|
      invariant buf[..off] == old(buf[..off])
      invariant buf[off..off + i] == data[..i]
      invariant buf[off + i..] == old(buf[off + i..])
    {
      buf[off + i] := data[i];
      assert buf[off + i + 1..] == old(buf[off + i + 1..]);
    }
    assert buf[..] == buf[..off] + buf[off..off + |data|] + buf[off + |data|..];
  }

  function LittleEndian16(v: nat): Bytes {
    [v % 256, v / 256 % 256]
  }

  /** Zeros already there count as written padding. */
  lemma HoldsPadding(b: Bytes, p: Bytes, n: nat)
    requires Holds(b, p) && |p| + n <= |b|
    ensures Holds(b, p + Zeros(n)) && p <= b
  {
  }

  method PutUuid(buf: array<Byte>, ghost h: Bytes, f: Fields)
    requires Header(h, f) && f.Valid() && f.ips == []
    requires Holds(buf[..], UpToName(h, f)) && |UpToUuid(h, f)| <= buf.Length
    modifies buf
    ensures Holds(buf[..], UpToUuid(h, f))
  {
    ghost var p := UpToIps(h, f);
    PutUuidHalf(buf, h, f);
    ghost var q := Pad8(p) + f.uuid[..8];
    HoldsPadding(buf[..], q, 0);
    assert p <= q;
    FindUuid(h, f, buf[..]);
    Put(buf, UuidOff(buf[..]) + 8, f.uuid[8..], q);
    assert q + Zeros(0) + f.uuid[8..] == UpToUuid(h, f);
  }

  /** The first of the two words, behind the list of addresses, which is empty. */
  method PutUuidHalf(buf: array<Byte>, ghost h: Bytes, f: Fields)
    requires Header(h, f) && f.Valid() && f.ips == []
    requires Holds(buf[..], UpToName(h, f)) && |UpToUuid(h, f)| <= buf.Length
    modifies buf
    ensures Holds(buf[..], Pad8(UpToIps(h, f)) + f.uuid[..8])
  {
    ghost var n, p := UpToName(h, f), UpToIps(h, f);
    HoldsPadding(buf[..], n, Up4(|n|) - |n|);
    assert n + Zeros(Up4(|n|) - |n|) == p;
    HoldsPadding(buf[..], p, 0);
    FindUuid(h, f, buf[..]);
    Put(buf, UuidOff(buf[..]), f.uuid[..8], p);
  }

  method PutPlatform(buf: array<Byte>, ghost h: Bytes, f: Fields)
    requires Header(h, f) && f.Valid()
    requires Holds(buf[..], UpToVersion(h, f)) && |UpToMemSz(h, f)| <= buf.Length
    modifies buf
    ensures Holds(buf[..], UpToMemSz(h, f))
  {
    PutCap(buf, h, f);
    ghost var p := Pad4(UpToVersion(h, f)) + f.cap;
    assert UpToVersion(h, f) <= p;
    LocateCap(h, f, buf[..], p);
    Put(buf, CapOff(buf[..]) + 4, f.memSz, p);
    assert p + Zeros(0) + f.memSz == UpToMemSz(h, f);
  }

  method PutCap(buf: array<Byte>, ghost h: Bytes, f: Fields)
    requires Header(h, f) && f.Valid()
    requires Holds(buf[..], UpToVersion(h, f)) && |Pad4(UpToVersion(h, f))| + 4 <= buf.Length
    modifies buf
    ensures Holds(buf[..], Pad4(UpToVersion(h, f)) + f.cap)
  {
    ghost var p := UpToVersion(h, f);
    LocateCap(h, f, buf[..], p);
    Put(buf, CapOff(buf[..]), f.cap, p);
    assert p + Zeros(|Pad4(p)| - |p|) == Pad4(p);
  }

  lemma LocateCap(h: Bytes, f: Fields, b: Bytes, p: Bytes)
    requires Header(h, f) && f.Valid() && Holds(b, p) && UpToVersion(h, f) <= p
    ensures CapOff(b) == |Pad4(UpToVersion(h, f))|
  {
    assert p <= b;
    FindCap(h, f, b);
  }

  lemma LocateText(h: Bytes, f: Fields, b: Bytes, n: nat)
    requires Header(h, f) && f.Valid() && n <= 5 && Holds(b, UpToText(h, f, n))
    ensures TextOff(b, n) == |UpToText(h, f, n)|
    ensures n > 0 ==> TextEnd(b, n) == |UpToText(h, f, n)|
  {
    var p := UpToText(h, f, n);
    assert p <= b;
    FindText(h, f, b, n);
    if n > 0 {
      FindLastText(h, f, b, n - 1);
    }
  }

  /** The end of the first n strings. */
  function TextEnd(c: Bytes, n: nat): nat
    requires n > 0
  {
    TextOff(c, n - 1) + StrLen(c, TextOff(c, n - 1)) + 1
  }

  method PutString(buf: array<Byte>, off: nat, s: Bytes, ghost p: Bytes)
    requires Holds(buf[..], p) && off == |p| && |p| + |s| + 1 <= buf.Length
    modifies buf
    ensures Holds(buf[..], p + s + [0])
  {
    Put(buf, off, s + [0], p);
    assert p + Zeros(0) + (s + [0]) == p + s + [0];
  }

  method PutText(buf: array<Byte>, ghost h: Bytes, f: Fields, n: nat)
    requires Header(h, f) && f.Valid() && n < 5
    requires Holds(buf[..], UpToText(h, f, n)) && |UpToText(h, f, n + 1)| <= buf.Length
    modifies buf
    ensures Holds(buf[..], UpToText(h, f, n + 1))
  {
    LocateText(h, f, buf[..], n);
    PutString(buf, TextOff(buf[..], n), f.texts[n], UpToText(h, f, n));
  }

  /** Write the local entry into a zeroed buffer, each field where its accessor points at that moment. */
  method NodeInit(buf: array<Byte>, f: Fields) returns (size: nat)
    requires f.Valid() && f.ips == []
    requires Holds(buf[..], []) && |Written([0, 0, 0, 0], f)| <= buf.Length
    modifies buf
    ensures size == |Written([0, 0, 0, 0], f)| % 65536
    ensures Holds(buf[..], Written(LittleEndian16(size) + [0, 0], f))
  {
    ghost var h: Bytes := [0, 0, 0, 0];
    Parts(h, f);
    PutHead(buf, h, f);
    PutPlatform(buf, h, f);
    for n := 0 to 5
      invariant Holds(buf[..], UpToText(h, f, n))
    {
      PartLength(h, f, n + 1);
      PutText(buf, h, f, n);
    }
    size := PutSize(buf, h, f);
  }

  /** The size is computed from the written bytes and stored in front of them. */
  method PutSize(buf: array<Byte>, ghost h: Bytes, f: Fields) returns (size: nat)
    requires f.Valid() && f.ips == [] && h == [0, 0, 0, 0]
    requires Holds(buf[..], UpToText(h, f, 5)) && |Written(h, f)| <= buf.Length
    modifies buf
    ensures size == |Written(h, f)| % 65536
    ensures Holds(buf[..], Written(LittleEndian16(size) + [0, 0], f))
  {
    LocateText(h, f, buf[..], 5);
    size := CalcSizeOf(buf[..]);
    ghost var t := UpToText(h, f, 5);
    HoldsPadding(buf[..], t, Up8(|t|) - |t|);
    HeaderStays(h, f, 5);
    StoreSize(buf, size, Written(h, f));
    HeaderOnly(h, LittleEndian16(size) + [0, 0], f);
  }

  method StoreSize(buf: array<Byte>, size: nat, ghost c: Bytes)
    requires Holds(buf[..], c) && |c| >= 4 && c[2] == 0 && c[3] == 0
    modifies buf
    ensures Holds(buf[..], LittleEndian16(size) + [0, 0] + c[4..])
  {
    ghost var full := buf[..];
    buf[0], buf[1] := size % 256, size / 256 % 256;
    assert full[2] == c[2] && full[3] == c[3];
    assert buf[..] == LittleEndian16(size) + [0, 0] + full[4..];
    assert full[4..] == c[4..] + Zeros(|full| - |c|);
  }

  lemma {:induction false} HeaderStays(h: Bytes, f: Fields, n: nat)
    requires |h| == 4 && n <= |f.texts|
    ensures h <= UpToText(h, f, n)
  {
    if n > 0 {
      HeaderStays(h, f, n - 1);
    }
  }

  lemma PartLength(h: Bytes, f: Fields, n: nat)
    requires f.Valid() && n <= 5
    ensures |UpToText(h, f, n)| <= |Written(h, f)|
  {
    TextPrefix(h, f, n, 5);
  }

  method PutHead(buf: array<Byte>, ghost h: Bytes, f: Fields)
    requires f.Valid() && f.ips == [] && h == [0, 0, 0, 0]
    requires Holds(buf[..], []) && |UpToVersion(h, f)| <= buf.Length
    modifies buf
    ensures Holds(buf[..], UpToVersion(h, f))
  {
    HoldsPadding(buf[..], [], 4);
    assert [] + Zeros(4) == h;
    Put(buf, 4, f.name + [0], h);
    assert h + Zeros(0) + (f.name + [0]) == UpToName(h, f);
    PutUuid(buf, h, f);
    ghost var p := UpToUuid(h, f);
    HoldsPadding(buf[..], p, 0);
    FindVersion(h, f, buf[..]);
    Put(buf, VersionOff(buf[..]), f.version + [0], p);
    assert p + Zeros(0) + (f.version + [0]) == UpToVersion(h, f);
  }

  // ---------------------------------------------------------------- the header is independent

  /** The same bytes behind headers h and h'. */
  predicate Twins(h: Bytes, h': Bytes, p: Bytes, p': Bytes) {
    |h| == 4 && |h'| == 4 && |p| >= 4 && p' == h' + p[4..]
  }

  lemma TwinsAppend(h: Bytes, h': Bytes, p: Bytes, p': Bytes, x: Bytes)
    requires Twins(h, h', p, p')
    ensures Twins(h, h', p + x, p' + x)
  {
    assert (p + x)[4..] == p[4..] + x;
  }

  lemma {:induction false} TwinTexts(h: Bytes, h': Bytes, f: Fields, n: nat)
    requires |h| == 4 && |h'| == 4 && n <= |f.texts|
    ensures Twins(h, h', UpToText(h, f, n), UpToText(h', f, n))
  {
    if n == 0 {
      var p1, p2, p3 := UpToName(h, f), UpToIps(h, f), UpToUuid(h, f);
      var q1, q2, q3 := UpToName(h', f), UpToIps(h', f), UpToUuid(h', f);
      assert Twins(h, h', p1, q1);
      TwinsAppend(h, h', p1, q1, Zeros(Up4(|p1|) - |p1|));
      TwinsAppend(h, h', Pad4(p1), Pad4(q1), f.ips);
      TwinsAppend(h, h', p2, q2, Zeros(Up8(|p2|) - |p2|));
      TwinsAppend(h, h', Pad8(p2), Pad8(q2), f.uuid);
      TwinsAppend(h, h', p3, q3, f.version);
      TwinsAppend(h, h', p3 + f.version, q3 + f.version, [0]);
      var p4, q4 := UpToVersion(h, f), UpToVersion(h', f);
      TwinsAppend(h, h', p4, q4, Zeros(Up4(|p4|) - |p4|));
      TwinsAppend(h, h', Pad4(p4), Pad4(q4), f.cap);
      TwinsAppend(h, h', Pad4(p4) + f.cap, Pad4(q4) + f.cap, f.memSz);
    } else {
      TwinTexts(h, h', f, n - 1);
      var p, q := UpToText(h, f, n - 1), UpToText(h', f, n - 1);
      TwinsAppend(h, h', p, q, f.texts[n - 1]);
      TwinsAppend(h, h', p + f.texts[n - 1], q + f.texts[n - 1], [0]);
    }
  }

  lemma HeaderOnly(h: Bytes, h': Bytes, f: Fields)
    requires |h| == 4 && |h'| == 4
    ensures Twins(h, h', Written(h, f), Written(h', f))
  {
    TwinTexts(h, h', f, |f.texts|);
    var p, q := UpToText(h, f, |f.texts|), UpToText(h', f, |f.texts|);
    TwinsAppend(h, h', p, q, Zeros(Up8(|p|) - |p|));
  }
}
