/** The executable files of ps2-unpacker.c: the loader that copies PT_LOAD segments into memory, and the file with one
    segment that the unpacker writes. Layouts as in chapters 4 and 5 of the System V ABI, 32 bits, little-endian. */
module Elf {
  import opened Words
  import opened Memory

  const ELF_MAGIC: u32 := 0x464c457f
  const PT_LOAD: u32 := 1
  const HEADER_SIZE: nat := 52
  const PHEADER_SIZE: nat := 32
  const DATA_OFFSET: nat := 0x1000
  const IDENT: seq<u8> := [0x7f, 0x45, 0x4c, 0x46, 0x01, 0x01, 0x01, 0x00, 0, 0, 0, 0, 0, 0, 0, 0]

  datatype Header = Header(kind: u16, machine: u16, version: u32, entry: u32, phoff: u32, shoff: u32, flags: u32,
                           ehsize: u16, phentsize: u16, phnum: u16, shentsize: u16, shnum: u16, shstrndx: u16)

  datatype ProgramHeader = ProgramHeader(kind: u32, offset: u32, vaddr: u32, paddr: u32, filesz: u32, memsz: u32,
                                         flags: u32, align: u32)

  /** `elf_header_t` as it is written to the file. */
  function EncHeader(h: Header): (bs: seq<u8>)
    ensures |bs| == HEADER_SIZE
  {
    IDENT + Enc(h.kind, 2) + Enc(h.machine, 2) + Enc(h.version, 4) + Enc(h.entry, 4) + Enc(h.phoff, 4)
    + Enc(h.shoff, 4) + Enc(h.flags, 4) + Enc(h.ehsize, 2) + Enc(h.phentsize, 2) + Enc(h.phnum, 2)
    + Enc(h.shentsize, 2) + Enc(h.shnum, 2) + Enc(h.shstrndx, 2)
  }

  function EncProgramHeader(p: ProgramHeader): (bs: seq<u8>)
    ensures |bs| == PHEADER_SIZE
  {
    Enc(p.kind, 4) + Enc(p.offset, 4) + Enc(p.vaddr, 4) + Enc(p.paddr, 4) + Enc(p.filesz, 4) + Enc(p.memsz, 4)
    + Enc(p.flags, 4) + Enc(p.align, 4)
  }

  /** The n-byte field at offset off of the file. */
  function Field(file: seq<u8>, off: nat, n: nat): nat
    requires off + n <= |file|
  {
    LE(file[off..off + n])
  }

  function Field32(file: seq<u8>, off: nat): u32
    requires off + 4 <= |file|
  {
    LEBound(file[off..off + 4]);
    Pow2Values();
    Field(file, off, 4)
  }

  function Field16(file: seq<u8>, off: nat): u16
    requires off + 2 <= |file|
  {
    LEBound(file[off..off + 2]);
    Pow2Values();
    Field(file, off, 2)
  }

  // ----- Loading -----

  /** `OutOfBounds`: the file sends the loader outside the file or outside the emulated memory, which it does not
      check. */
  datatype LoadResult = Loaded(bytes: Bytes, entry: u32) | NotElf | OutOfBounds

  /** Where in the file the i-th program header is: pointer arithmetic of the host, which does not wrap around. */
  function PhAt(file: seq<u8>, i: nat): nat
    requires |file| >= HEADER_SIZE
  {
    Field32(file, 28) + Field16(file, 42) * i
  }

  /** One round of the segment loop; None if it leaves the file or the memory. */
  function LoadSegment(bytes: Bytes, file: seq<u8>, p: nat): Option<Bytes>
  {
    if p + 4 > |file| then None
    else if Field32(file, p) != PT_LOAD then Some(bytes)
    else if p + 20 > |file| then None
    else
      var offset, vaddr, filesz := Field32(file, p + 4), Field32(file, p + 8), Field32(file, p + 16);
      if filesz == 0 then Some(bytes)
      else if offset + filesz > |file| || vaddr + filesz > MEMSIZE then None
      else Some(Overwrite(bytes, vaddr, file[offset..offset + filesz]))
  }

  /** The segments from the i-th on, in order. */
  function LoadSegments(bytes: Bytes, file: seq<u8>, i: nat): Option<Bytes>
    requires |file| >= HEADER_SIZE && i <= Field16(file, 44)
    decreases Field16(file, 44) - i
  {
    if i == Field16(file, 44) then Some(bytes)
    else
      match LoadSegment(bytes, file, PhAt(file, i))
      case None => None
      case Some(b) => LoadSegments(b, file, i + 1)
  }

  function LoadElf(bytes: Bytes, file: seq<u8>): LoadResult
  {
    if |file| < 4 then OutOfBounds
    else if Field32(file, 0) != ELF_MAGIC then NotElf
    else if |file| < HEADER_SIZE then OutOfBounds
    else
      match LoadSegments(bytes, file, 0)
      case None => OutOfBounds
      case Some(b) => Loaded(b, Field32(file, 24))
  }

  // ----- What a loaded file looks like -----

  /** Where the k-th program header is, by the file's own fields. */
  function HeaderAt(file: seq<u8>, k: nat): nat
    requires |file| >= 52
  {
    LE(file[28..32]) + LE(file[42..44]) * k
  }

  /** The segment of the k-th header is to be loaded, and holds address a. */
  predicate Covers(file: seq<u8>, k: nat, a: nat)
    requires |file| >= 52
  {
    var p := HeaderAt(file, k);
    && p + 20 <= |file|
    && Field32(file, p) == 1
    && Field32(file, p + 8) <= a < Field32(file, p + 8) + Field32(file, p + 16)
  }

  /** The loop gets through just when every header, and every segment that is to be loaded, lies where it must. */
  predicate InBounds(file: seq<u8>, k: nat)
    requires |file| >= 52
  {
    var p := HeaderAt(file, k);
    && p + 4 <= |file|
    && (Field32(file, p) == 1 ==>
          && p + 20 <= |file|
          && (Field32(file, p + 16) != 0 ==>
                && Field32(file, p + 4) + Field32(file, p + 16) <= |file|
                && Field32(file, p + 8) + Field32(file, p + 16) <= 0x200_0000))
  }

  /** What the loop over the headers from the i-th on leaves at address a: the byte of the last segment that holds a,
      and the old byte if none does. */
  ghost predicate HasByteOf(after: Bytes, bytes: Bytes, file: seq<u8>, i: nat, n: nat, a: nat)
    requires |file| >= 52 && a < MEMSIZE
  {
    && ((forall k :: i <= k < n ==> !Covers(file, k, a)) ==> after[a] == bytes[a])
    && (forall k :: i <= k < n && Covers(file, k, a) && (forall l :: k < l < n ==> !Covers(file, l, a)) ==>
          var p := HeaderAt(file, k);
          var at := Field32(file, p + 4) + a - Field32(file, p + 8);
          at < |file| && after[a] == file[at])
  }

  lemma {:induction false} LastSegmentWins(bytes: Bytes, file: seq<u8>, i: nat, a: nat)
    requires |file| >= HEADER_SIZE && i <= Field16(file, 44) && a < MEMSIZE
    ensures var after := LoadSegments(bytes, file, i);
            after.Some? ==> HasByteOf(after.value, bytes, file, i, Field16(file, 44), a)
    decreases Field16(file, 44) - i
  {
    hide Field32, Field16, PhAt, HeaderAt;
    if i == Field16(file, 44) {
    } else {
      PhAtIs(file, i);
      var p := PhAt(file, i);
      if LoadSegment(bytes, file, p).Some? {
        var next := LoadSegment(bytes, file, p).value;
        assert !Covers(file, i, a) ==> next[a] == bytes[a];
        assert Covers(file, i, a) ==> next[a] == file[Field32(file, p + 4) + a - Field32(file, p + 8)];
        LastSegmentWins(next, file, i + 1, a);
      }
    }
  }

  lemma PhAtIs(file: seq<u8>, i: nat)
    requires |file| >= HEADER_SIZE
    ensures PhAt(file, i) == HeaderAt(file, i)
  {
    hide LE;
  }

  lemma {:induction false} LoadsIff(bytes: Bytes, file: seq<u8>, i: nat)
    requires |file| >= HEADER_SIZE && i <= Field16(file, 44)
    ensures LoadSegments(bytes, file, i).Some? <==> forall k :: i <= k < Field16(file, 44) ==> InBounds(file, k)
    decreases Field16(file, 44) - i
  {
    hide Field32, Field16, PhAt, HeaderAt, Overwrite;
    if i == Field16(file, 44) {
    } else {
      PhAtIs(file, i);
      var p := PhAt(file, i);
      assert LoadSegment(bytes, file, p).Some? <==> InBounds(file, i);
      if LoadSegment(bytes, file, p).Some? {
        LoadsIff(LoadSegment(bytes, file, p).value, file, i + 1);
      }
    }
  }

  /** Which files are loaded, from where they start, and what byte is then at address a. */
  lemma LoadedImage(bytes: Bytes, file: seq<u8>, a: nat)
    requires a < MEMSIZE
    ensures LoadElf(bytes, file).Loaded? <==>
              && |file| >= 52
              && file[0..4] == [0x7f, 0x45, 0x4c, 0x46]
              && forall k :: 0 <= k < LE(file[44..46]) ==> InBounds(file, k)
    ensures LoadElf(bytes, file).Loaded? ==>
              && LoadElf(bytes, file).entry == LE(file[24..28])
              && HasByteOf(LoadElf(bytes, file).bytes, bytes, file, 0, LE(file[44..46]), a)
  {
    hide HeaderAt, PhAt, InBounds, HasByteOf, LoadSegments, LE;
    if |file| >= HEADER_SIZE {
      MagicIff(file[0..4]);
      LoadsIff(bytes, file, 0);
      LastSegmentWins(bytes, file, 0, a);
    }
  }

  lemma MagicIff(bs: seq<u8>)
    requires |bs| == 4
    ensures LE(bs) == ELF_MAGIC <==> bs == [0x7f, 0x45, 0x4c, 0x46]
  {
    Magic();
    EncLE(bs);
    EncLE([0x7f, 0x45, 0x4c, 0x46]);
  }

  // ----- Writing -----

  function OutHeader(entry: u32): Header
  {
    Header(2, 8, 1, entry, HEADER_SIZE, 0, 0, HEADER_SIZE, PHEADER_SIZE, 1, 0, 0, 0)
  }

  function OutProgramHeader(lo: u32, size: u32): ProgramHeader
  {
    ProgramHeader(PT_LOAD, DATA_OFFSET, lo, lo, size, size, 7, 0x1000)
  }

  /** The output file: both headers, and the data at offset 4096. Seeking alone does not lengthen the file. */
  function EmitElf(entry: u32, lo: u32, data: seq<u8>): seq<u8>
    requires |data| < TWO32
  {
    var headers := EncHeader(OutHeader(entry)) + EncProgramHeader(OutProgramHeader(lo, |data|));
    if data == [] then headers else headers + Zeros(DATA_OFFSET - HEADER_SIZE - PHEADER_SIZE) + data
  }

  function Zeros(n: nat): (bs: seq<u8>)
    ensures |bs| == n
  {
    seq(n, _ => 0)
  }

  // ----- Reading back -----

  lemma Enc4(v: u32)
    ensures LE(Enc(v, 4)) == v
  {
    Pow2Values();
    LEEnc(v, 4);
  }

  lemma Enc2(v: u16)
    ensures LE(Enc(v, 2)) == v
  {
    Pow2Values();
    LEEnc(v, 2);
  }

  /** The fields the loader uses are where the writer put them. */
  lemma HeaderFields(h: Header, rest: seq<u8>)
    ensures var f := EncHeader(h) + rest;
            && Field32(f, 0) == ELF_MAGIC
            && Field32(f, 24) == h.entry
            && Field32(f, 28) == h.phoff
            && Field16(f, 42) == h.phentsize
            && Field16(f, 44) == h.phnum
  {
    hide Enc, LE;
    var f := EncHeader(h) + rest;
    assert f[0..4] == IDENT[0..4] == [0x7f, 0x45, 0x4c, 0x46];
    Magic();
    assert f[24..28] == Enc(h.entry, 4);
    assert f[28..32] == Enc(h.phoff, 4);
    assert f[42..44] == Enc(h.phentsize, 2);
    assert f[44..46] == Enc(h.phnum, 2);
    Enc4(h.entry);
    Enc4(h.phoff);
    Enc2(h.phentsize);
    Enc2(h.phnum);
  }

  lemma Magic()
    ensures LE([0x7f, 0x45, 0x4c, 0x46]) == ELF_MAGIC
  {
    assert LE([0x46]) == 0x46;
    assert [0x4c, 0x46][1..] == [0x46];
    assert [0x45, 0x4c, 0x46][1..] == [0x4c, 0x46];
    assert [0x7f, 0x45, 0x4c, 0x46][1..] == [0x45, 0x4c, 0x46];
  }

  lemma ProgramHeaderFields(p: ProgramHeader, before: seq<u8>, rest: seq<u8>)
    ensures var f, n := before + EncProgramHeader(p) + rest, |before|;
            && Field32(f, n) == p.kind
            && Field32(f, n + 4) == p.offset
            && Field32(f, n + 8) == p.vaddr
            && Field32(f, n + 16) == p.filesz
  {
    hide Enc, LE;
    var f, n := before + EncProgramHeader(p) + rest, |before|;
    assert f[n..n + 4] == Enc(p.kind, 4);
    assert f[n + 4..n + 8] == Enc(p.offset, 4);
    assert f[n + 8..n + 12] == Enc(p.vaddr, 4);
    assert f[n + 16..n + 20] == Enc(p.filesz, 4);
    Enc4(p.kind);
    Enc4(p.offset);
    Enc4(p.vaddr);
    Enc4(p.filesz);
  }

  lemma EmittedFields(entry: u32, lo: u32, data: seq<u8>)
    requires |data| < TWO32
    ensures var f := EmitElf(entry, lo, data);
            && |f| >= 84
            && Field32(f, 0) == ELF_MAGIC && Field32(f, 24) == entry && Field32(f, 28) == HEADER_SIZE
            && Field16(f, 42) == PHEADER_SIZE && Field16(f, 44) == 1
            && Field32(f, 52) == PT_LOAD && Field32(f, 56) == DATA_OFFSET && Field32(f, 60) == lo
            && Field32(f, 68) == |data|
            && (data != [] ==> DATA_OFFSET + |data| == |f| && f[DATA_OFFSET..DATA_OFFSET + |data|] == data)
  {
    hide EncHeader, EncProgramHeader, Field32, Field16, Zeros;
    var head, ph := EncHeader(OutHeader(entry)), EncProgramHeader(OutProgramHeader(lo, |data|));
    var gap := if data == [] then [] else Zeros(DATA_OFFSET - HEADER_SIZE - PHEADER_SIZE);
    Regrouped(head, ph, gap, data);
    HeaderFields(OutHeader(entry), ph + (gap + data));
    ProgramHeaderFields(OutProgramHeader(lo, |data|), head, gap + data);
    if data == [] {
      NothingMore(head, ph);
    }
  }

  lemma Regrouped(head: seq<u8>, ph: seq<u8>, gap: seq<u8>, data: seq<u8>)
    ensures head + ph + gap + data == head + (ph + (gap + data)) == head + ph + (gap + data)
    ensures var f := head + ph + gap + data; f[|head| + |ph| + |gap|..] == data
  {
  }

  lemma NothingMore(head: seq<u8>, ph: seq<u8>)
    ensures head + ph == head + ph + [] + []
  {
  }

  /** The loader reads the emitted file back: it puts exactly the data at lo, over whatever memory it is given, and
      starts at the entry point. */
  lemma EmittedFileLoads(bytes: Bytes, entry: u32, lo: u32, data: seq<u8>)
    requires lo + |data| <= MEMSIZE
    ensures LoadElf(bytes, EmitElf(entry, lo, data)) == Loaded(Overwrite(bytes, lo, data), entry)
  {
    hide EmitElf, Overwrite, Field32, Field16;
    var f := EmitElf(entry, lo, data);
    EmittedFields(entry, lo, data);
    if data == [] {
      EmptyOverwrite(bytes, lo);
    }
    assert PhAt(f, 0) == 52;
    assert LoadSegment(bytes, f, 52) == Some(Overwrite(bytes, lo, data));
    assert LoadSegments(bytes, f, 0) == LoadSegments(Overwrite(bytes, lo, data), f, 1);
  }

  lemma EmptyOverwrite(bytes: Bytes, p: nat)
    ensures Overwrite(bytes, p, []) == bytes
  {
  }

  // ----- The written file, byte by byte -----

  lemma SmallEnc(v: u8)
    ensures Enc(v, 4) == [v, 0, 0, 0] && Enc(v, 2) == [v, 0]
  {
    assert Enc(v, 4) == [v] + Enc(0, 3);
    ZeroEnc();
    assert Enc(v, 2) == [v] + Enc(0, 1);
  }

  lemma ZeroEnc()
    ensures Enc(0, 3) == [0, 0, 0] && Enc(0, 1) == [0] && Enc(0x1000, 4) == [0, 0x10, 0, 0]
  {
    assert Enc(0, 1) == [0] && Enc(0, 2) == [0] + Enc(0, 1) && Enc(0, 3) == [0] + Enc(0, 2);
    assert Enc(0x10, 3) == [0x10] + Enc(0, 2) && Enc(0x1000, 4) == [0] + Enc(0x10, 3);
  }

  /** An executable (type 2) for MIPS (machine 8), 32 bits and little-endian, with this entry point and one program
      header right behind the file header. Its segment is to be loaded, readable, writable and executable, takes the
      data at offset 4096 to address lo, virtual and physical, and no more. There are no sections. */
  ghost predicate IsExecutable(f: seq<u8>, entry: u32, lo: u32, data: seq<u8>)
  {
    && |f| == (if data == [] then 84 else 4096 + |data|)
    && f[0..24] == [0x7f, 0x45, 0x4c, 0x46, 1, 1, 1, 0, 0, 0, 0, 0, 0, 0, 0, 0, 2, 0, 8, 0, 1, 0, 0, 0]
    && f[24..28] == Enc(entry, 4)
    && f[28..52] == [52, 0, 0, 0, 0, 0, 0, 0, 0, 0, 0, 0, 52, 0, 32, 0, 1, 0, 0, 0, 0, 0, 0, 0]
    && f[52..60] == [1, 0, 0, 0, 0, 0x10, 0, 0]
    && f[60..64] == Enc(lo, 4) == f[64..68]
    && f[68..72] == Enc(|data|, 4) == f[72..76]
    && f[76..84] == [7, 0, 0, 0, 0, 0x10, 0, 0]
    && (data != [] ==> f[4096..] == data && forall i :: 84 <= i < 4096 ==> f[i] == 0)
  }

  lemma EmitsExecutable(entry: u32, lo: u32, data: seq<u8>)
    requires |data| < TWO32
    ensures IsExecutable(EmitElf(entry, lo, data), entry, lo, data)
  {
    hide Enc;
    var f := EmitElf(entry, lo, data);
    var head, ph := EncHeader(OutHeader(entry)), EncProgramHeader(OutProgramHeader(lo, |data|));
    HeaderBytes(entry);
    ProgramHeaderBytes(lo, |data|);
    assert f[0..24] == head[0..24] && f[24..28] == head[24..28] && f[28..52] == head[28..52];
    assert f[52..60] == ph[0..8] && f[60..64] == ph[8..12] && f[64..68] == ph[12..16];
    assert f[68..72] == ph[16..20] && f[72..76] == ph[20..24] && f[76..84] == ph[24..32];
  }

  lemma HeaderBytes(entry: u32)
    ensures var h := EncHeader(OutHeader(entry));
            && h[0..24] == [0x7f, 0x45, 0x4c, 0x46, 1, 1, 1, 0, 0, 0, 0, 0, 0, 0, 0, 0, 2, 0, 8, 0, 1, 0, 0, 0]
            && h[24..28] == Enc(entry, 4)
            && h[28..52] == [52, 0, 0, 0, 0, 0, 0, 0, 0, 0, 0, 0, 52, 0, 32, 0, 1, 0, 0, 0, 0, 0, 0, 0]
  {
    hide EncHeader, Enc;
    EncHeaderParts(OutHeader(entry));
    FixedParts();
    var h := EncHeader(OutHeader(entry));
    var first := IDENT + Enc(2, 2) + Enc(8, 2) + Enc(1, 4);
    var last := Enc(52, 4) + Enc(0, 4) + Enc(0, 4) + Enc(52, 2) + Enc(32, 2) + Enc(1, 2) + Enc(0, 2) + Enc(0, 2)
                + Enc(0, 2);
    assert h == first + Enc(entry, 4) + last;
    assert h[0..24] == first && h[24..28] == Enc(entry, 4) && h[28..52] == last;
  }

  lemma FixedParts()
    ensures IDENT + Enc(2, 2) + Enc(8, 2) + Enc(1, 4) ==
              [0x7f, 0x45, 0x4c, 0x46, 1, 1, 1, 0, 0, 0, 0, 0, 0, 0, 0, 0, 2, 0, 8, 0, 1, 0, 0, 0]
    ensures Enc(52, 4) + Enc(0, 4) + Enc(0, 4) + Enc(52, 2) + Enc(32, 2) + Enc(1, 2) + Enc(0, 2) + Enc(0, 2) + Enc(0, 2)
            == [52, 0, 0, 0, 0, 0, 0, 0, 0, 0, 0, 0, 52, 0, 32, 0, 1, 0, 0, 0, 0, 0, 0, 0]
  {
    hide Enc;
    SmallEnc(0);
    SmallEnc(1);
    SmallEnc(2);
    SmallEnc(8);
    SmallEnc(32);
    SmallEnc(52);
  }

  lemma EncHeaderParts(h: Header)
    ensures EncHeader(h) ==
              (IDENT + Enc(h.kind, 2) + Enc(h.machine, 2) + Enc(h.version, 4)) + Enc(h.entry, 4)
              + (Enc(h.phoff, 4) + Enc(h.shoff, 4) + Enc(h.flags, 4) + Enc(h.ehsize, 2) + Enc(h.phentsize, 2)
                 + Enc(h.phnum, 2) + Enc(h.shentsize, 2) + Enc(h.shnum, 2) + Enc(h.shstrndx, 2))
  {
    hide Enc;
  }

  lemma ProgramHeaderBytes(lo: u32, size: u32)
    ensures var h := EncProgramHeader(OutProgramHeader(lo, size));
            && h[0..8] == [1, 0, 0, 0, 0, 0x10, 0, 0]
            && h[8..12] == Enc(lo, 4) == h[12..16]
            && h[16..20] == Enc(size, 4) == h[20..24]
            && h[24..32] == [7, 0, 0, 0, 0, 0x10, 0, 0]
  {
    hide Enc;
    FixedFields();
    Slices(Enc(1, 4), Enc(0x1000, 4), Enc(lo, 4), Enc(lo, 4), Enc(size, 4), Enc(size, 4), Enc(7, 4), Enc(0x1000, 4));
  }

  lemma FixedFields()
    ensures Enc(1, 4) + Enc(0x1000, 4) == [1, 0, 0, 0, 0, 0x10, 0, 0]
    ensures Enc(7, 4) + Enc(0x1000, 4) == [7, 0, 0, 0, 0, 0x10, 0, 0]
  {
    hide Enc;
    ZeroEnc();
    SmallEnc(1);
    SmallEnc(7);
  }

  /** Eight fields of four bytes in a row. */
  lemma Slices(a: seq<u8>, b: seq<u8>, c: seq<u8>, d: seq<u8>, e: seq<u8>, f: seq<u8>, g: seq<u8>, h: seq<u8>)
    requires |a| == |b| == |c| == |d| == |e| == |f| == |g| == |h| == 4
    ensures var s := a + b + c + d + e + f + g + h;
            && s[0..8] == a + b && s[8..12] == c && s[12..16] == d && s[16..20] == e && s[20..24] == f
            && s[24..32] == g + h
  {
  }

  // ----- Files with any number of segments -----

  function EncProgramHeaders(ps: seq<ProgramHeader>): (bs: seq<u8>)
    ensures |bs| == 32 * |ps|
  {
    if ps == [] then [] else EncProgramHeader(ps[0]) + EncProgramHeaders(ps[1..])
  }

  /** The k-th of the headers has its place among them. */
  lemma {:induction false} HeaderOf(ps: seq<ProgramHeader>, k: nat)
    requires k < |ps|
    ensures EncProgramHeaders(ps)[32 * k..32 * k + 32] == EncProgramHeader(ps[k])
    decreases k
  {
    hide EncProgramHeader;
    var bs, tail := EncProgramHeaders(ps), EncProgramHeaders(ps[1..]);
    if k == 0 {
      assert bs[0..32] == EncProgramHeader(ps[0]);
    } else {
      HeaderOf(ps[1..], k - 1);
      assert bs[32 * k..32 * k + 32] == tail[32 * (k - 1)..32 * (k - 1) + 32];
    }
  }

  /** The segment of p is to be loaded and lies in a file of n bytes and in memory. */
  predicate Fits(p: ProgramHeader, n: nat)
  {
    p.kind == 1 && p.filesz != 0 ==> p.offset + p.filesz <= n && p.vaddr + p.filesz <= 0x200_0000
  }

  predicate Holds(p: ProgramHeader, a: nat) { p.kind == 1 && p.vaddr <= a < p.vaddr + p.filesz }

  /** Any number of program headers written behind a file header that announces them, whatever it says of sections:
      the file loads exactly if all segments fit, starts at its entry point, and each byte of memory is that of the
      last segment that holds it. */
  lemma SegmentsRoundTrip(bytes: Bytes, h: Header, ps: seq<ProgramHeader>, rest: seq<u8>, a: nat)
    requires h.phoff == 52 && h.phentsize == 32 && h.phnum == |ps| && a < MEMSIZE
    ensures var file := EncHeader(h) + EncProgramHeaders(ps) + rest;
            && (LoadElf(bytes, file).Loaded? <==> forall p :: p in ps ==> Fits(p, |file|))
            && (LoadElf(bytes, file).Loaded? ==>
                  var after := LoadElf(bytes, file);
                  && after.entry == h.entry
                  && ((forall p :: p in ps ==> !Holds(p, a)) ==> after.bytes[a] == bytes[a])
                  && (forall k :: 0 <= k < |ps| && Holds(ps[k], a)
                                  && (forall p :: p in ps[k + 1..] ==> !Holds(p, a)) ==>
                        var at := ps[k].offset + a - ps[k].vaddr;
                        at < |file| && after.bytes[a] == file[at]))
  {
    hide EncHeader, EncProgramHeader, EncProgramHeaders, LE, HeaderAt, LoadElf, InBounds, Covers;
    var file := EncHeader(h) + EncProgramHeaders(ps) + rest;
    assert file == EncHeader(h) + (EncProgramHeaders(ps) + rest);
    HeaderFields(h, EncProgramHeaders(ps) + rest);
    LoadedImage(bytes, file, a);
    MagicIff(file[0..4]);
    forall k: nat | k < |ps|
      ensures HeaderAt(file, k) == 52 + 32 * k && 84 + 32 * k <= |file|
      ensures Field32(file, 52 + 32 * k + 4) == ps[k].offset
      ensures Field32(file, 52 + 32 * k + 8) == ps[k].vaddr
      ensures InBounds(file, k) == Fits(ps[k], |file|) && Covers(file, k, a) == Holds(ps[k], a)
    {
      SegmentHeader(h, ps, rest, k, a);
    }
    forall k | 0 <= k < |ps| && Holds(ps[k], a) && (forall p :: p in ps[k + 1..] ==> !Holds(p, a))
      ensures forall l :: k < l < |ps| ==> !Holds(ps[l], a)
    {
      forall l | k < l < |ps| ensures !Holds(ps[l], a) {
        assert ps[l] == ps[k + 1..][l - k - 1];
      }
    }
  }

  lemma SegmentHeader(h: Header, ps: seq<ProgramHeader>, rest: seq<u8>, k: nat, a: nat)
    requires h.phoff == 52 && h.phentsize == 32 && k < |ps|
    ensures var file := EncHeader(h) + EncProgramHeaders(ps) + rest;
            && HeaderAt(file, k) == 52 + 32 * k
            && 84 + 32 * k <= |file|
            && Field32(file, 52 + 32 * k + 4) == ps[k].offset
            && Field32(file, 52 + 32 * k + 8) == ps[k].vaddr
            && InBounds(file, k) == Fits(ps[k], |file|)
            && Covers(file, k, a) == Holds(ps[k], a)
  {
    hide EncHeader, EncProgramHeader, EncProgramHeaders, LE;
    var bs := EncProgramHeaders(ps);
    var file := EncHeader(h) + bs + rest;
    assert file == EncHeader(h) + (bs + rest);
    HeaderFields(h, bs + rest);
    HeaderOf(ps, k);
    var before, after := EncHeader(h) + bs[..32 * k], bs[32 * k + 32..] + rest;
    assert bs == bs[..32 * k] + bs[32 * k..32 * k + 32] + bs[32 * k + 32..];
    assert file == before + EncProgramHeader(ps[k]) + after;
    ProgramHeaderFields(ps[k], before, after);
  }
}
