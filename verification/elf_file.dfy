/** A writer of ELF files, field by field as the format lays them out, and that the loader reads back what it writes. */
module ElfFile {
  import opened Types
  import opened Elf

  type Half = n: nat | n < 0x1_0000
  type Full32 = n: nat | n < 0x1_0000_0000

  function Blank(n: nat): (r: seq<Byte>)
    ensures |r| == n
  {
    seq(n, _ => 0)
  }

  /** The file header: identification, type, machine, version, entry point, the two tables, flags, sizes and counts. */
  function FileHeader(entry: Full32, table: Full32, entrySize: Half, count: Half): (r: seq<Byte>)
    ensures |r| == 52
  {
    [0x7f, 0x45, 0x4c, 0x46, 1, 1, 1] + Blank(9)
    + Le16(2) + Le16(3) + Le32(1) + Le32(entry) + Le32(table) + Le32(0) + Le32(0)
    + Le16(52) + Le16(entrySize) + Le16(count) + Le16(0) + Le16(0) + Le16(0)
  }

  predicate Fits32(seg: Segment)
  {
    && seg.kind < 0x1_0000_0000 && seg.offset < 0x1_0000_0000 && seg.vaddr < 0x1_0000_0000
    && seg.filesz < 0x1_0000_0000 && seg.memsz < 0x1_0000_0000 && seg.flags < 0x1_0000_0000
  }

  /** A program header: type, offset, virtual and physical address, sizes in the file and in memory, flags, alignment. */
  function ProgramHeader(seg: Segment): (r: seq<Byte>)
    requires Fits32(seg)
    ensures |r| == 32
  {
    Le32(seg.kind) + Le32(seg.offset) + Le32(seg.vaddr) + Le32(seg.vaddr)
    + Le32(seg.filesz) + Le32(seg.memsz) + Le32(seg.flags) + Le32(0x1000)
  }

  /** The file begins with this header, and its table holds these program headers. */
  ghost predicate Written(data: File, entry: Full32, table: Full32, entrySize: Half, segs: seq<Segment>)
  {
    && |segs| < 0x1_0000 && |data| >= 52 && data[..52] == FileHeader(entry, table, entrySize, |segs|)
    && forall i: nat :: i < |segs| ==> HeaderWritten(data, table + i * entrySize, segs[i])
  }

  ghost predicate HeaderWritten(data: File, at: int, seg: Segment)
  {
    Fits32(seg) && 0 <= at && at + 32 <= |data| && data[at..at + 32] == ProgramHeader(seg)
  }

  /** elf_validate looks at ten bytes: the magic number, class and encoding, type and machine. */
  lemma ValidExactly(data: File)
    requires |data| >= 52
    ensures Validate(data) <==> data[..6] == [0x7f, 0x45, 0x4c, 0x46, 1, 1] && data[16..20] == [2, 0, 3, 0]
  {
    if data[..6] == [0x7f, 0x45, 0x4c, 0x46, 1, 1] {
      assert forall i :: 0 <= i < 6 ==> data[i] == data[..6][i];
    }
    assert data[16] == data[16..20][0] && data[17] == data[16..20][1] && data[18] == data[16..20][2] && data[19] == data[16..20][3];
    assert data[..6] == [data[0], data[1], data[2], data[3], data[4], data[5]];
    assert data[16..20] == [data[16], data[17], data[18], data[19]];
  }

  lemma FileHeaderIsValid(data: File, entry: Full32, table: Full32, entrySize: Half, count: Half)
    requires |data| >= 52 && data[..52] == FileHeader(entry, table, entrySize, count)
    ensures Validate(data)
  {
    hide Validate, Le32;
    var h := FileHeader(entry, table, entrySize, count);
    assert data[0..52] == data[..52];
    assert h[0..6] == [0x7f, 0x45, 0x4c, 0x46, 1, 1];
    assert h[16..20] == Le16(2) + Le16(3) == [2, 0, 3, 0];
    FieldOf(data, 0, h, 0, 6);
    FieldOf(data, 0, h, 16, 20);
    assert data[0..6] == data[..6];
    ValidExactly(data);
  }

  lemma FileHeaderReadBack(data: File, entry: Full32, table: Full32, entrySize: Half, count: Half)
    requires |data| >= 52 && data[..52] == FileHeader(entry, table, entrySize, count)
    ensures Validate(data) && EntryPoint(data) == entry && HeaderCount(data) == count
    ensures U32(data, 28) == table && U16(data, 42) == entrySize
  {
    hide U16, U32, Le16, Le32, Validate;
    FileHeaderIsValid(data, entry, table, entrySize, count);
    var h := FileHeader(entry, table, entrySize, count);
    assert data[0..52] == data[..52];
    assert h[24..28] == Le32(entry) && h[28..32] == Le32(table);
    assert h[42..44] == Le16(entrySize) && h[44..46] == Le16(count);
    FieldOf(data, 0, h, 24, 28);
    FieldOf(data, 0, h, 28, 32);
    FieldOf(data, 0, h, 42, 44);
    FieldOf(data, 0, h, 44, 46);
    ReadBack32(data, 24, entry);
    ReadBack32(data, 28, table);
    ReadBack16(data, 42, entrySize);
    ReadBack16(data, 44, count);
  }

  lemma ProgramHeaderReadBack(data: File, at: nat, seg: Segment)
    requires HeaderWritten(data, at, seg)
    ensures Segment(U32(data, at), U32(data, at + 4), U32(data, at + 8), U32(data, at + 16), U32(data, at + 20), U32(data, at + 24)) == seg
  {
    hide U32, Le32;
    var h := ProgramHeader(seg);
    assert h[0..4] == Le32(seg.kind) && h[4..8] == Le32(seg.offset) && h[8..12] == Le32(seg.vaddr);
    assert h[16..20] == Le32(seg.filesz) && h[20..24] == Le32(seg.memsz) && h[24..28] == Le32(seg.flags);
    FieldOf(data, at, h, 0, 4);
    FieldOf(data, at, h, 4, 8);
    FieldOf(data, at, h, 8, 12);
    FieldOf(data, at, h, 16, 20);
    FieldOf(data, at, h, 20, 24);
    FieldOf(data, at, h, 24, 28);
    ReadBack32(data, at, seg.kind);
    ReadBack32(data, at + 4, seg.offset);
    ReadBack32(data, at + 8, seg.vaddr);
    ReadBack32(data, at + 16, seg.filesz);
    ReadBack32(data, at + 20, seg.memsz);
    ReadBack32(data, at + 24, seg.flags);
  }

  /** The loader sees the entry point and the segments that were written, each as it was written. */
  lemma WrittenIsReadBack(data: File, entry: Full32, table: Full32, entrySize: Half, segs: seq<Segment>)
    requires Written(data, entry, table, entrySize, segs)
    ensures Validate(data) && EntryPoint(data) == entry && HeaderCount(data) == |segs|
    ensures forall i: nat :: i < |segs| ==> HeaderInside(data, i) && SegmentAt(data, i) == segs[i]
    ensures forall i: nat :: Load(data, i) <==> i < |segs| && segs[i].kind == 1
  {
    hide U16, U32, FileHeader, ProgramHeader, Validate;
    FileHeaderReadBack(data, entry, table, entrySize, |segs|);
    forall i: nat | i < |segs|
      ensures HeaderInside(data, i) && SegmentAt(data, i) == segs[i]
    {
      assert HeaderAt(data, i) == table + i * entrySize;
      assert HeaderWritten(data, HeaderAt(data, i), segs[i]);
      ProgramHeaderReadBack(data, HeaderAt(data, i), segs[i]);
    }
  }

  /** A program header counts as inside the file exactly when all its 32 bytes are. */
  lemma InsideExactly(data: File, i: nat)
    requires |data| >= 52
    ensures HeaderInside(data, i) <==> U32(data, 28) + i * U16(data, 42) + 32 <= |data|
  {
  }
}
