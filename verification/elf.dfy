/**
 * The ELF-64 executable header and program header as the loader of
 * userprog/process.c reads them: raw little-endian bytes laid out field after
 * field, decoded into records and checked against the loader's acceptance rules.
 */
module Elf {
  import opened Mem
  import opened Bytes
  import opened Wrappers

  const EI_NIDENT: nat := 16
  /** sizeof(struct ELF64_hdr) and sizeof(struct ELF64_PHDR). */
  const EHDR_SIZE: nat := 64
  const PHDR_SIZE: nat := 56

  const PT_LOAD: nat := 1
  const PT_DYNAMIC: nat := 2
  const PT_INTERP: nat := 3
  const PT_SHLIB: nat := 5
  const PF_W: nat := 2

  /** struct ELF64_hdr: e_ident, then thirteen little-endian fields from offset 16. */
  datatype Ehdr = Ehdr(ident: seq<Byte>, etype: nat, machine: nat, version: nat, entry: nat,
                       phoff: nat, shoff: nat, flags: nat, ehsize: nat, phentsize: nat,
                       phnum: nat, shentsize: nat, shnum: nat, shstrndx: nat)

  /** struct ELF64_PHDR: eight little-endian fields. */
  datatype Phdr = Phdr(ptype: nat, flags: nat, offset: nat, vaddr: nat, paddr: nat,
                       filesz: nat, memsz: nat, align: nat)

  const U16: nat := 0x1_0000

  lemma Widths()
    ensures Pow256(2) == U16 && Pow256(4) == U32 && Pow256(8) == U64
  {
  }

  /** The `w`-byte little-endian number stored at offset `at`. */
  function Le(bs: seq<Byte>, at: nat, w: nat): (v: nat)
    requires at + w <= |bs|
    ensures v < Pow256(w)
  {
    FromLE(bs[at..at + w])
  }

  /** Every field fits its C type. */
  predicate EhdrFits(h: Ehdr)
  {
    && |h.ident| == EI_NIDENT
    && h.etype < U16 && h.machine < U16 && h.version < U32 && h.entry < U64
    && h.phoff < U64 && h.shoff < U64 && h.flags < U32 && h.ehsize < U16
    && h.phentsize < U16 && h.phnum < U16 && h.shentsize < U16 && h.shnum < U16 && h.shstrndx < U16
  }

  predicate PhdrFits(p: Phdr)
  {
    p.ptype < U32 && p.flags < U32 && p.offset < U64 && p.vaddr < U64 && p.paddr < U64
    && p.filesz < U64 && p.memsz < U64 && p.align < U64
  }

  /** The header as file_read copies it out of the first EHDR_SIZE bytes. */
  function DecodeEhdr(bs: seq<Byte>): (h: Ehdr)
    requires |bs| == EHDR_SIZE
    ensures EhdrFits(h)
  {
    Widths();
    Ehdr(bs[..EI_NIDENT], Le(bs, 16, 2), Le(bs, 18, 2), Le(bs, 20, 4), Le(bs, 24, 8),
         Le(bs, 32, 8), Le(bs, 40, 8), Le(bs, 48, 4), Le(bs, 52, 2),
         Le(bs, 54, 2), Le(bs, 56, 2), Le(bs, 58, 2), Le(bs, 60, 2), Le(bs, 62, 2))
  }

  /** The bytes of a header as it lies in an executable. */
  function EncodeEhdr(h: Ehdr): (bs: seq<Byte>)
    requires |h.ident| == EI_NIDENT
    ensures |bs| == EHDR_SIZE
  {
    h.ident + ToLE(h.etype, 2) + ToLE(h.machine, 2) + ToLE(h.version, 4) + ToLE(h.entry, 8)
    + ToLE(h.phoff, 8) + ToLE(h.shoff, 8) + ToLE(h.flags, 4) + ToLE(h.ehsize, 2)
    + ToLE(h.phentsize, 2) + ToLE(h.phnum, 2) + ToLE(h.shentsize, 2) + ToLE(h.shnum, 2) + ToLE(h.shstrndx, 2)
  }

  function DecodePhdr(bs: seq<Byte>): (p: Phdr)
    requires |bs| == PHDR_SIZE
    ensures PhdrFits(p)
  {
    Widths();
    Phdr(Le(bs, 0, 4), Le(bs, 4, 4), Le(bs, 8, 8), Le(bs, 16, 8),
         Le(bs, 24, 8), Le(bs, 32, 8), Le(bs, 40, 8), Le(bs, 48, 8))
  }

  function EncodePhdr(p: Phdr): (bs: seq<Byte>)
    ensures |bs| == PHDR_SIZE
  {
    ToLE(p.ptype, 4) + ToLE(p.flags, 4) + ToLE(p.offset, 8) + ToLE(p.vaddr, 8)
    + ToLE(p.paddr, 8) + ToLE(p.filesz, 8) + ToLE(p.memsz, 8) + ToLE(p.align, 8)
  }

  /** Decoding reads back every field of an encoded header. */
  lemma DecodeEncodeEhdr(h: Ehdr)
    requires EhdrFits(h)
    ensures DecodeEhdr(EncodeEhdr(h)) == h
  {
    Widths();
    var bs := EncodeEhdr(h);
    var e1 := h.ident;
    var e2 := e1 + ToLE(h.etype, 2);
    var e3 := e2 + ToLE(h.machine, 2);
    var e4 := e3 + ToLE(h.version, 4);
    var e5 := e4 + ToLE(h.entry, 8);
    var e6 := e5 + ToLE(h.phoff, 8);
    var e7 := e6 + ToLE(h.shoff, 8);
    var e8 := e7 + ToLE(h.flags, 4);
    var e9 := e8 + ToLE(h.ehsize, 2);
    var e10 := e9 + ToLE(h.phentsize, 2);
    var e11 := e10 + ToLE(h.phnum, 2);
    var e12 := e11 + ToLE(h.shentsize, 2);
    var e13 := e12 + ToLE(h.shnum, 2);
    assert bs[..64] == e13 + ToLE(h.shstrndx, 2);
    Prefix(bs, e13, ToLE(h.shstrndx, 2));
    Prefix(bs, e12, ToLE(h.shnum, 2));
    Prefix(bs, e11, ToLE(h.shentsize, 2));
    Prefix(bs, e10, ToLE(h.phnum, 2));
    Prefix(bs, e9, ToLE(h.phentsize, 2));
    Prefix(bs, e8, ToLE(h.ehsize, 2));
    Prefix(bs, e7, ToLE(h.flags, 4));
    Prefix(bs, e6, ToLE(h.shoff, 8));
    Prefix(bs, e5, ToLE(h.phoff, 8));
    Prefix(bs, e4, ToLE(h.entry, 8));
    Prefix(bs, e3, ToLE(h.version, 4));
    Prefix(bs, e2, ToLE(h.machine, 2));
    Prefix(bs, e1, ToLE(h.etype, 2));
    FromToLE(h.etype, 2);
    FromToLE(h.machine, 2);
    FromToLE(h.version, 4);
    FromToLE(h.entry, 8);
    FromToLE(h.phoff, 8);
    FromToLE(h.shoff, 8);
    FromToLE(h.flags, 4);
    FromToLE(h.ehsize, 2);
    FromToLE(h.phentsize, 2);
    FromToLE(h.phnum, 2);
    FromToLE(h.shentsize, 2);
    FromToLE(h.shnum, 2);
    FromToLE(h.shstrndx, 2);
  }

  /** Every 64-byte string is the encoding of the header it decodes to. */
  lemma EncodeDecodeEhdr(bs: seq<Byte>)
    requires |bs| == EHDR_SIZE
    ensures EncodeEhdr(DecodeEhdr(bs)) == bs
  {
    var h := DecodeEhdr(bs);
    ToFromLE(bs[16..18]);
    ToFromLE(bs[18..20]);
    ToFromLE(bs[20..24]);
    ToFromLE(bs[24..32]);
    ToFromLE(bs[32..40]);
    ToFromLE(bs[40..48]);
    ToFromLE(bs[48..52]);
    ToFromLE(bs[52..54]);
    ToFromLE(bs[54..56]);
    ToFromLE(bs[56..58]);
    ToFromLE(bs[58..60]);
    ToFromLE(bs[60..62]);
    ToFromLE(bs[62..64]);
    Join(bs, 0, 16, 18);
    Join(bs, 0, 18, 20);
    Join(bs, 0, 20, 24);
    Join(bs, 0, 24, 32);
    Join(bs, 0, 32, 40);
    Join(bs, 0, 40, 48);
    Join(bs, 0, 48, 52);
    Join(bs, 0, 52, 54);
    Join(bs, 0, 54, 56);
    Join(bs, 0, 56, 58);
    Join(bs, 0, 58, 60);
    Join(bs, 0, 60, 62);
    Join(bs, 0, 62, 64);
  }

  /** A prefix of `bs` made of `e` then `x` holds `e` and then `x`. */
  lemma Prefix(bs: seq<Byte>, e: seq<Byte>, x: seq<Byte>)
    requires |e| + |x| <= |bs| && bs[..|e| + |x|] == e + x
    ensures bs[..|e|] == e && bs[|e|..|e| + |x|] == x
  {
    assert bs[..|e|] == (e + x)[..|e|];
    assert bs[|e|..|e| + |x|] == (e + x)[|e|..];
  }

  lemma Join(bs: seq<Byte>, i: nat, j: nat, k: nat)
    requires i <= j <= k <= |bs|
    ensures bs[i..j] + bs[j..k] == bs[i..k]
  {
  }

  lemma DecodeEncodePhdr(p: Phdr)
    requires PhdrFits(p)
    ensures DecodePhdr(EncodePhdr(p)) == p
  {
    Widths();
    var bs := EncodePhdr(p);
    assert bs[0..4] == ToLE(p.ptype, 4);
    assert bs[4..8] == ToLE(p.flags, 4);
    assert bs[8..16] == ToLE(p.offset, 8);
    assert bs[16..24] == ToLE(p.vaddr, 8);
    assert bs[24..32] == ToLE(p.paddr, 8);
    assert bs[32..40] == ToLE(p.filesz, 8);
    assert bs[40..48] == ToLE(p.memsz, 8);
    assert bs[48..56] == ToLE(p.align, 8);
    FromToLE(p.ptype, 4);
    FromToLE(p.flags, 4);
    FromToLE(p.offset, 8);
    FromToLE(p.vaddr, 8);
    FromToLE(p.paddr, 8);
    FromToLE(p.filesz, 8);
    FromToLE(p.memsz, 8);
    FromToLE(p.align, 8);
  }

  lemma EncodeDecodePhdr(bs: seq<Byte>)
    requires |bs| == PHDR_SIZE
    ensures EncodePhdr(DecodePhdr(bs)) == bs
  {
    ToFromLE(bs[0..4]);
    ToFromLE(bs[4..8]);
    ToFromLE(bs[8..16]);
    ToFromLE(bs[16..24]);
    ToFromLE(bs[24..32]);
    ToFromLE(bs[32..40]);
    ToFromLE(bs[40..48]);
    ToFromLE(bs[48..56]);
    Join(bs, 0, 4, 8);
    Join(bs, 0, 8, 16);
    Join(bs, 0, 16, 24);
    Join(bs, 0, 24, 32);
    Join(bs, 0, 32, 40);
    Join(bs, 0, 40, 48);
    Join(bs, 0, 48, 56);
  }

  /** "\177ELF", ELFCLASS64, ELFDATA2LSB, EV_CURRENT: the first seven bytes of e_ident. */
  const ELF_MAGIC: seq<Byte> := [0x7F, 0x45, 0x4C, 0x46, 2, 1, 1]
  const ET_EXEC: nat := 2
  const EM_X86_64: nat := 0x3E
  const MAX_PHNUM: nat := 1024

  /** The checks load applies to a header it read in full. */
  predicate HeaderAccepted(h: Ehdr)
    requires |h.ident| == EI_NIDENT
  {
    && h.ident[..7] == ELF_MAGIC
    && h.etype == ET_EXEC && h.machine == EM_X86_64 && h.version == 1
    && h.phentsize == PHDR_SIZE && h.phnum <= MAX_PHNUM
  }

  /**
   * Reading the executable header from the start of `file`: a short read, or
   * a header failing any check, makes load fail.
   */
  function ReadHeader(file: seq<Byte>): (r: Option<Ehdr>)
    ensures r.Some? ==> EhdrFits(r.value) && HeaderAccepted(r.value)
    ensures r.Some? ==> |file| >= EHDR_SIZE && r.value == DecodeEhdr(file[..EHDR_SIZE])
  {
    if |file| < EHDR_SIZE then None
    else
      var h := DecodeEhdr(file[..EHDR_SIZE]);
      if HeaderAccepted(h) then Some(h) else None
  }

  /** The same acceptance rule, stated on the raw bytes of the file. */
  predicate HeaderBytesOk(file: seq<Byte>)
  {
    && |file| >= EHDR_SIZE
    && file[..7] == ELF_MAGIC
    && file[16..18] == [2, 0]
    && file[18..20] == [0x3E, 0]
    && file[20..24] == [1, 0, 0, 0]
    && file[54..56] == [56, 0]
    && file[56] as int + 256 * file[57] as int <= MAX_PHNUM
  }

  /** A field equals a value exactly when its bytes are that value's encoding. */
  lemma FieldIs(bs: seq<Byte>, x: nat)
    requires x < Pow256(|bs|)
    ensures FromLE(bs) == x <==> bs == ToLE(x, |bs|)
  {
    ToFromLE(bs);
    FromToLE(x, |bs|);
  }

  lemma TwoBytes(bs: seq<Byte>)
    requires |bs| == 2
    ensures FromLE(bs) == bs[0] as int + 256 * bs[1] as int
  {
    assert bs[1..][1..] == [];
  }

  /** The header is accepted exactly when its bytes pass the checks. */
  lemma ReadHeaderBytes(file: seq<Byte>)
    ensures ReadHeader(file).Some? <==> HeaderBytesOk(file)
  {
    if |file| >= EHDR_SIZE {
      var bs := file[..EHDR_SIZE];
      assert bs[16..18] == file[16..18] && bs[18..20] == file[18..20] && bs[20..24] == file[20..24];
      assert bs[54..56] == file[54..56] && bs[56..58] == file[56..58] && bs[..7] == file[..7];
      DecodedChecks(bs);
    }
  }

  lemma DecodedChecks(bs: seq<Byte>)
    requires |bs| == EHDR_SIZE
    ensures var h := DecodeEhdr(bs);
      && (h.ident[..7] == ELF_MAGIC <==> bs[..7] == ELF_MAGIC)
      && (h.etype == ET_EXEC <==> bs[16..18] == [2, 0])
      && (h.machine == EM_X86_64 <==> bs[18..20] == [0x3E, 0])
      && (h.version == 1 <==> bs[20..24] == [1, 0, 0, 0])
      && (h.phentsize == PHDR_SIZE <==> bs[54..56] == [56, 0])
      && h.phnum == bs[56] as int + 256 * bs[57] as int
  {
    Widths();
    FieldIs(bs[16..18], ET_EXEC);
    FieldIs(bs[18..20], EM_X86_64);
    FieldIs(bs[20..24], 1);
    FieldIs(bs[54..56], PHDR_SIZE);
    TwoBytes(bs[56..58]);
    assert ToLE(ET_EXEC, 2) == [2, 0];
    assert ToLE(EM_X86_64, 2) == [0x3E, 0];
    assert ToLE(1, 4) == [1, 0, 0, 0];
    assert ToLE(PHDR_SIZE, 2) == [56, 0];
  }

  /** What load does with a program header of each type. */
  datatype PhdrAction = Ignore | Abort | LoadSegment

  function Dispatch(ptype: nat): (a: PhdrAction)
    ensures a == Abort <==> ptype in {PT_DYNAMIC, PT_INTERP, PT_SHLIB}
    ensures a == LoadSegment <==> ptype == PT_LOAD
  {
    if ptype == PT_LOAD then LoadSegment
    else if ptype == PT_DYNAMIC || ptype == PT_INTERP || ptype == PT_SHLIB then Abort
    else Ignore
  }

  /**
   * validate_segment, with its 64-bit address arithmetic: the end address
   * p_vaddr + p_memsz is computed modulo 2^64.
   */
  function ValidateSegment(p: Phdr, fileLength: nat): bool
  {
    var vend := (p.vaddr + p.memsz) % U64;
    if PgOfs(p.offset) != PgOfs(p.vaddr) then false
    else if p.offset > fileLength then false
    else if p.memsz < p.filesz then false
    else if p.memsz == 0 then false
    else if !IsUserVaddr(p.vaddr) then false
    else if !IsUserVaddr(vend) then false
    else if vend < p.vaddr then false
    else if p.vaddr < PGSIZE then false
    else true
  }

  /** A segment that lies in the file and in user space, above page 0, without wrapping. */
  predicate SegmentFits(p: Phdr, fileLength: nat)
  {
    && PgOfs(p.offset) == PgOfs(p.vaddr)
    && p.offset <= fileLength
    && 0 < p.memsz && p.filesz <= p.memsz
    && PGSIZE <= p.vaddr && p.vaddr + p.memsz < KERN_BASE
  }

  /** validate_segment accepts exactly the segments that fit; its wrap check is what rules out overflow. */
  lemma ValidateSegmentFits(p: Phdr, fileLength: nat)
    requires PhdrFits(p)
    ensures ValidateSegment(p, fileLength) <==> SegmentFits(p, fileLength)
  {
    if p.vaddr + p.memsz >= U64 {
      assert (p.vaddr + p.memsz) % U64 == p.vaddr + p.memsz - U64;
    } else {
      assert (p.vaddr + p.memsz) % U64 == p.vaddr + p.memsz;
    }
  }

  /** p_flags & PF_W */
  predicate Writable(p: Phdr)
  {
    (p.flags / PF_W) % 2 == 1
  }

  /** The page-aligned file offset and user address the segment is loaded from and to. */
  function FilePage(p: Phdr): nat { p.offset - PgOfs(p.offset) }
  function MemPage(p: Phdr): nat { p.vaddr - PgOfs(p.vaddr) }

  /** How many bytes of the segment's pages are read from the file and how many zeroed. */
  datatype Split = Split(readBytes: nat, zeroBytes: nat)

  /**
   * The read/zero split as load computes it: both counts are stored in
   * uint32_t variables, so they are taken modulo 2^32.
   */
  function SplitAsWritten(p: Phdr): Split
  {
    var pageOffset := PgOfs(p.vaddr);
    var total := RoundUpPage(pageOffset + p.memsz);
    if p.filesz > 0 then
      var read := (pageOffset + p.filesz) % U32;
      Split(read, (total - read) % U32)
    else
      Split(0, total % U32)
  }

  /** The same split without the truncation. */
  function SegmentSplit(p: Phdr): (s: Split)
    requires p.filesz <= p.memsz
  {
    var pageOffset := PgOfs(p.vaddr);
    var read := if p.filesz > 0 then pageOffset + p.filesz else 0;
    Split(read, RoundUpPage(pageOffset + p.memsz) - read)
  }

  /**
   * The segment's pages span from its page start to the page boundary at or
   * after its end; the file part starts at the same page start.
   */
  lemma SegmentSplitCovers(p: Phdr)
    requires p.filesz <= p.memsz
    ensures var s := SegmentSplit(p);
      && (s.readBytes + s.zeroBytes) % PGSIZE == 0
      && s.readBytes + s.zeroBytes == RoundUpPage(PgOfs(p.vaddr) + p.memsz)
      && MemPage(p) + s.readBytes + s.zeroBytes >= p.vaddr + p.memsz
      && MemPage(p) + s.readBytes + s.zeroBytes < p.vaddr + p.memsz + PGSIZE
      && (p.filesz > 0 ==> MemPage(p) + s.readBytes == p.vaddr + p.filesz)
      && (p.filesz == 0 ==> s.readBytes == 0)
  {
  }

  /** Even truncated, the two counts add up to whole pages: load_segment's first ASSERT cannot fail. */
  lemma AsWrittenWholePages(p: Phdr)
    requires p.filesz <= p.memsz
    ensures var s := SplitAsWritten(p); (s.readBytes + s.zeroBytes) % PGSIZE == 0
  {
    var total := RoundUpPage(PgOfs(p.vaddr) + p.memsz);
    var a := total / PGSIZE;
    assert total == PGSIZE * a;
    var s := SplitAsWritten(p);
    var diff := if p.filesz > 0 then total - s.readBytes else total;
    var k := diff / U32;
    assert diff % U32 == diff - k * U32;
    assert s.readBytes + s.zeroBytes == PGSIZE * (a - k * 0x10_0000);
    PageMultiple(a - k * 0x10_0000);
  }

  lemma PageMultiple(m: int)
    ensures (PGSIZE * m) % PGSIZE == 0
  {
  }

  /** While the rounded segment size stays below 4 GiB, the truncation changes nothing. */
  lemma AsWrittenAgrees(p: Phdr)
    requires p.filesz <= p.memsz && PgOfs(p.vaddr) + p.memsz <= U32 - PGSIZE
    ensures SplitAsWritten(p) == SegmentSplit(p)
  {
  }

  /**
   * A 4 GiB segment that validate_segment accepts: truncated, it is read and
   * zeroed over zero bytes, so no page of it would be registered.
   */
  lemma TruncatedSegment()
    ensures var p := Phdr(PT_LOAD, 4, 0, 0x40_0000, 0x40_0000, U32, U32, PGSIZE);
      && PhdrFits(p) && ValidateSegment(p, 0)
      && SplitAsWritten(p) == Split(0, 0)
      && SegmentSplit(p).readBytes + SegmentSplit(p).zeroBytes == U32
  {
    var p := Phdr(PT_LOAD, 4, 0, 0x40_0000, 0x40_0000, U32, U32, PGSIZE);
    assert RoundUpPage(PgOfs(p.vaddr) + p.memsz) == U32;
  }
}
