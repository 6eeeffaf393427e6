/**
 * The entry a node makes for itself, as the first entry of its list (NODE_Init in app/node.c).
 */
module LocalEntry {
  import opened EntryLayout
  import opened EntrySwap
  import opened ListSwap
  import EntryWriting

  /** The bytes NODE_Init leaves for fields f when it stores this size. */
  function Local(size: nat, f: EntryWriting.Fields): Bytes {
    EntryWriting.Written(EntryWriting.LittleEndian16(size) + [0, 0], f)
  }

  /** What is stored as the size is read back as the size, and the UUID as the UUID. */
  lemma LocalRead(size: nat, f: EntryWriting.Fields)
    requires f.Valid() && f.ips == []
    ensures var c := Local(size, f);
      SizeOf(c) == size % 65536 && Complete(c) &&
      UuidOff(c) + 16 <= |c| && c[UuidOff(c)..UuidOff(c) + 16] == f.uuid
  {
    var h := EntryWriting.LittleEndian16(size) + [0, 0];
    var c := Local(size, f);
    EntryWriting.ReadsBack(h, f, 0);
    assert c[0] == h[0] && c[1] == h[1];
    LowHalf(size);
    EntryWriting.SizeIsLength(h, f);
  }

  lemma LowHalf(v: nat)
    ensures v % 256 + 256 * (v / 256 % 256) == v % 65536
  {
    var q := v / 256;
    assert v == 256 * (256 * (q / 256) + q % 256) + v % 256;
    assert v == 65536 * (q / 256) + (256 * (q % 256) + v % 256);
    assert 0 <= 256 * (q % 256) + v % 256 < 65536;
  }

  lemma SameLength(h: Bytes, h': Bytes, f: EntryWriting.Fields)
    requires |h| == 4 && |h'| == 4
    ensures |EntryWriting.Written(h, f)| == |EntryWriting.Written(h', f)|
  {
    EntryWriting.HeaderOnly(h, h', f);
  }

  /** The length of the entry, whatever its size field says. */
  function LocalSize(f: EntryWriting.Fields): nat {
    |EntryWriting.Written([0, 0, 0, 0], f)|
  }

  /** The local entry, with the size ENTRY_CALC_SIZE gives it, is an entry of a list exactly if it is below 64 KiB. */
  lemma LocalIsEntry(f: EntryWriting.Fields, n: nat)
    requires f.Valid() && f.ips == [] && n == LocalSize(f)
    ensures |Local(n % 65536, f)| == n && (IsEntry(Local(n % 65536, f)) <==> n < 65536)
  {
    var size := n % 65536;
    SameLength([0, 0, 0, 0], EntryWriting.LittleEndian16(size) + [0, 0], f);
    LocalRead(size, f);
    EntryWriting.SizeIsLength(EntryWriting.LittleEndian16(size) + [0, 0], f);
  }

  /** NODE_Init's part on the entry: made in a zeroed buffer of 4096 bytes, then cut to its size. */
  method MakeLocal(f: EntryWriting.Fields) returns (c: Bytes)
    requires f.Valid() && f.ips == [] && LocalSize(f) <= 4096
    ensures c == Local(LocalSize(f), f)
    ensures IsEntry(c) && |c| <= 4096 && UuidOff(c) + 16 <= |c| && c[UuidOff(c)..UuidOff(c) + 16] == f.uuid
  {
    var buf := ZeroedBuffer(4096);
    var size := EntryWriting.NodeInit(buf, f);
    assert size == LocalSize(f);
    ghost var made := Local(size, f);
    LocalMade(f, size);
    HeldPrefix(buf[..], made);
    c := buf[..size];
  }

  lemma {:induction false} LocalMade(f: EntryWriting.Fields, size: nat)
    requires f.Valid() && f.ips == [] && size == LocalSize(f) <= 4096
    ensures var c := Local(size, f);
      size == |c| && IsEntry(c) && UuidOff(c) + 16 <= |c| && c[UuidOff(c)..UuidOff(c) + 16] == f.uuid
  {
    assert size % 65536 == size;
    LocalIsEntry(f, size);
    LocalRead(size, f);
  }

  method ZeroedBuffer(n: nat) returns (buf: array<Byte>)
    ensures fresh(buf) && buf.Length == n && EntryWriting.Holds(buf[..], [])
  {
    buf := new Byte[n](_ => 0);
    assert buf[..] == [] + EntryWriting.Zeros(n);
  }

  lemma HeldPrefix(b: Bytes, c: Bytes)
    requires EntryWriting.Holds(b, c)
    ensures b[..|c|] == c
  {
  }
}
