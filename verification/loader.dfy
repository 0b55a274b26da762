/**
 * Loading an executable in userprog/process.c (VM build): the page-by-page
 * split of a segment into lazy-load descriptors, the loader run on the first
 * fault of each page, the initial stack page, and load itself.
 */
module Loader {
  import opened Wrappers
  import opened Mem
  import opened Vm
  import opened Elf
  import Cpu

  function Min(a: nat, b: nat): nat
  {
    if a < b then a else b
  }

  /** How many bytes page `k` of a segment reads from the file when `read` bytes are read in all. */
  function PageRead(read: nat, k: nat): (n: nat)
    ensures n <= PGSIZE
  {
    if read <= k * PGSIZE then 0 else Min(read - k * PGSIZE, PGSIZE)
  }

  /**
   * The descriptors load_segment hands to vm_alloc_page_with_initializer, one
   * per page: page `k` reads its share of the file part from where the
   * previous page stopped, and zeroes the rest of the page. The offset is an
   * off_t, so it wraps once the bytes read so far take it past 2^31 - 1.
   */
  function SegmentPlan(file: nat, ofs: int, read: nat, zero: nat): (plan: seq<LoadInfo>)
    requires (read + zero) % PGSIZE == 0
    ensures |plan| == (read + zero) / PGSIZE
  {
    seq((read + zero) / PGSIZE, k requires 0 <= k =>
      LoadInfo(file, ToOffT(ofs + Min(k * PGSIZE, read)), PageRead(read, k), PGSIZE - PageRead(read, k)))
  }

  /** While the file part ends below 2^31, page `k` reads from the segment's offset plus the bytes read before it. */
  lemma PlanOffset(file: nat, ofs: nat, read: nat, zero: nat, k: nat)
    requires (read + zero) % PGSIZE == 0 && ofs + read < 0x8000_0000 && k < (read + zero) / PGSIZE
    ensures SegmentPlan(file, ofs, read, zero)[k].ofs == ofs + Min(k * PGSIZE, read)
  {
  }

  /**
   * A segment whose file part reaches 2 GiB into the file gets a negative
   * offset in the descriptor of its page 0x80000.
   */
  lemma OffsetWraps(fileId: nat)
    ensures var plan := SegmentPlan(fileId, 0, 0x8000_1000, 0);
      |plan| == 0x80001 && plan[0x80000].ofs == -0x8000_0000 && plan[0x80000].readBytes == PGSIZE
  {
    var plan := SegmentPlan(fileId, 0, 0x8000_1000, 0);
    assert Min(0x80000 * PGSIZE, 0x8000_1000) == 0x8000_0000;
  }

  /**
   * The contents of a freshly loaded page, or none when the file ends before
   * the bytes to read (reading nothing always succeeds).
   */
  function LazyImage(file: seq<Byte>, info: LoadInfo): (r: Option<seq<Byte>>)
    requires 0 <= info.ofs && info.readBytes <= PGSIZE
    ensures r.Some? ==> |r.value| == PGSIZE
  {
    if info.readBytes == 0 then Some(Zeros(PGSIZE))
    else if info.ofs + info.readBytes <= |file| then
      Some(file[info.ofs..info.ofs + info.readBytes] + Zeros(PGSIZE - info.readBytes))
    else None
  }

  /** The segment's bytes in memory: its file part followed by zeroes. */
  function SegmentImage(file: seq<Byte>, ofs: nat, read: nat, zero: nat): (img: seq<Byte>)
    requires ofs + read <= |file|
    ensures |img| == read + zero
  {
    file[ofs..ofs + read] + Zeros(zero)
  }

  /**
   * Loading the pages of a plan one by one reproduces the segment: page `k`
   * of the plan holds bytes [k * PGSIZE, (k + 1) * PGSIZE) of the segment image.
   */
  lemma PlanLoadsSegment(fileId: nat, file: seq<Byte>, ofs: nat, read: nat, zero: nat, k: nat)
    requires (read + zero) % PGSIZE == 0 && ofs + read <= |file| < 0x8000_0000
    requires k < (read + zero) / PGSIZE
    ensures var info := SegmentPlan(fileId, ofs, read, zero)[k];
      && 0 <= info.ofs && info.readBytes <= PGSIZE
      && LazyImage(file, info) == Some(SegmentImage(file, ofs, read, zero)[k * PGSIZE..(k + 1) * PGSIZE])
  {
    var info := SegmentPlan(fileId, ofs, read, zero)[k];
    var img := SegmentImage(file, ofs, read, zero);
    var r := info.readBytes;
    assert (k + 1) * PGSIZE <= read + zero;
    PlanOffset(fileId, ofs, read, zero, k);
    if r > 0 {
      assert info.ofs == ofs + k * PGSIZE;
    }
    assert info.ofs + r <= |file|;
    var page := LazyImage(file, info).value;
    forall j | 0 <= j < PGSIZE
      ensures page[j] == img[k * PGSIZE + j]
    {
      if j < r {
        assert page[j] == file[ofs + k * PGSIZE + j];
      } else {
        assert page[j] == 0;
        assert k * PGSIZE + j >= read;
      }
    }
    assert page == img[k * PGSIZE..(k + 1) * PGSIZE];
  }

  /** How many bytes file_read copies when asked for `n` bytes at offset `ofs`. */
  function Available(file: seq<Byte>, ofs: nat, n: nat): (m: nat)
    ensures m <= n && (m > 0 ==> ofs + m <= |file|)
    ensures m < n ==> ofs + n > |file|
  {
    if ofs >= |file| then 0 else Min(n, |file| - ofs)
  }

  /**
   * lazy_load_segment: read the descriptor's bytes from the file into the
   * frame and zero the rest of the page; a short read fails.
   */
  method LazyLoadSegment(kva: array<Byte>, file: seq<Byte>, info: LoadInfo) returns (ok: bool)
    requires kva.Length == PGSIZE && 0 <= info.ofs && info.readBytes <= PGSIZE
    modifies kva
    ensures ok <==> LazyImage(file, info).Some?
    ensures ok ==> kva[..] == LazyImage(file, info).value
    ensures var n := Available(file, info.ofs, info.readBytes);
      !ok ==> (forall j :: 0 <= j < n ==> kva[j] == file[info.ofs + j]) && kva[n..] == old(kva[n..])
  {
    var n := Available(file, info.ofs, info.readBytes);
    forall j | 0 <= j < n {
      kva[j] := file[info.ofs + j];
    }
    if n != info.readBytes {
      return false;
    }
    forall j | info.readBytes <= j < PGSIZE {
      kva[j] := 0;
    }
    ok := true;
    if info.readBytes > 0 {
      assert kva[..] == file[info.ofs..info.ofs + info.readBytes] + Zeros(PGSIZE - info.readBytes);
    } else {
      assert kva[..] == Zeros(PGSIZE);
    }
  }

  /** The page load_segment registers for page `k` of a segment starting at `upage`. */
  function PlannedPage(t: Tid, upage: Va, writable: bool, plan: seq<LoadInfo>, k: nat): Page
    requires k < |plan|
  {
    Page(upage + k * PGSIZE, writable, t, Uninit(Anon, LazyLoad(plan[k])), None)
  }

  /** Thread `t`'s table after the first `m` pages of the plan were registered into `spt`. */
  ghost function Registered(spt: map<PageRef, Page>, t: Tid, upage: Va, writable: bool,
                            plan: seq<LoadInfo>, m: nat): map<PageRef, Page>
    requires m <= |plan|
  {
    if m == 0 then spt
    else Registered(spt, t, upage, writable, plan, m - 1)[PageRef(t, upage + (m - 1) * PGSIZE) :=
                                                          PlannedPage(t, upage, writable, plan, m - 1)]
  }

  /** The next page's address is taken in the registered table exactly when it was taken to begin with. */
  lemma NextKeyUnregistered(spt: map<PageRef, Page>, t: Tid, upage: Va, writable: bool, plan: seq<LoadInfo>,
                            k: nat, page: Va)
    requires k < |plan| && page == upage + k * PGSIZE
    ensures PageRef(t, page) in Registered(spt, t, upage, writable, plan, k) <==> PageRef(t, page) in spt
  {
    RegisteredIs(spt, t, upage, writable, plan, k, PageRef(t, page));
  }

  /** Registering the next page of the plan extends the registered table by that page. */
  lemma RegisterNext(spt: map<PageRef, Page>, t: Tid, upage: Va, writable: bool, plan: seq<LoadInfo>, k: nat,
                     before: map<PageRef, Page>, after: map<PageRef, Page>, page: Va)
    requires k < |plan| && before == Registered(spt, t, upage, writable, plan, k)
    requires page == upage + k * PGSIZE
    requires after == before[PageRef(t, page) := Page(page, writable, t, Uninit(Anon, LazyLoad(plan[k])), None)]
    ensures after == Registered(spt, t, upage, writable, plan, k + 1)
  {
  }

  /** Whether `va` is the address of one of the first `m` pages of a segment at `upage`. */
  predicate InSegment(upage: Va, va: Va, m: nat)
  {
    upage <= va && (va - upage) % PGSIZE == 0 && (va - upage) / PGSIZE < m
  }

  /**
   * Registering adds exactly the first `m` pages of the plan and leaves every
   * other entry of the table as it was.
   */
  lemma {:induction false} RegisteredIs(spt: map<PageRef, Page>, t: Tid, upage: Va, writable: bool,
                                        plan: seq<LoadInfo>, m: nat, r: PageRef)
    requires m <= |plan|
    ensures var reg := Registered(spt, t, upage, writable, plan, m);
      if r.tid == t && InSegment(upage, r.va, m)
      then r in reg && reg[r] == PlannedPage(t, upage, writable, plan, (r.va - upage) / PGSIZE)
      else (r in reg <==> r in spt) && (r in spt ==> reg[r] == spt[r])
  {
    if m > 0 {
      RegisteredIs(spt, t, upage, writable, plan, m - 1, r);
      if r.tid == t && InSegment(upage, r.va, m) && !InSegment(upage, r.va, m - 1) {
        assert r.va == upage + (m - 1) * PGSIZE;
      }
    }
  }

  /** The first page of a segment whose address is taken in `t`'s table, or `n` when none is. */
  function FirstTaken(spt: map<PageRef, Page>, t: Tid, upage: Va, lo: nat, n: nat): (r: nat)
    requires lo <= n
    decreases n - lo
    ensures lo <= r <= n
    ensures forall j :: lo <= j < r ==> PageRef(t, upage + j * PGSIZE) !in spt
    ensures r < n ==> PageRef(t, upage + r * PGSIZE) in spt
  {
    if lo == n then n
    else if PageRef(t, upage + lo * PGSIZE) in spt then lo
    else FirstTaken(spt, t, upage, lo + 1, n)
  }

  /** None of the first `k` page addresses of a segment at `upage` is taken in `t`'s table. */
  ghost predicate Free(spt: map<PageRef, Page>, t: Tid, upage: Va, k: nat)
  {
    forall j: nat :: j < k ==> PageRef(t, upage + j * PGSIZE) !in spt
  }

  lemma FreeStep(spt: map<PageRef, Page>, t: Tid, upage: Va, k: nat, page: Va)
    requires page == upage + k * PGSIZE
    requires Free(spt, t, upage, k) && PageRef(t, page) !in spt
    ensures Free(spt, t, upage, k + 1)
  {
  }

  lemma FirstTakenAt(spt: map<PageRef, Page>, t: Tid, upage: Va, k: nat, n: nat, page: Va)
    requires page == upage + k * PGSIZE
    requires k <= n && Free(spt, t, upage, k)
    requires k < n ==> PageRef(t, page) in spt
    ensures FirstTaken(spt, t, upage, 0, n) == k
  {
  }

  /**
   * The counters of load_segment's loop after `k` pages: the bytes still to
   * read and to zero fill the remaining pages, and the file offset has moved
   * past the bytes read so far.
   */
  predicate Progress(read: nat, zero: nat, k: nat, readLeft: nat, zeroLeft: nat, ofs: int, pos: int)
  {
    && (read + zero) % PGSIZE == 0 && k * PGSIZE <= read + zero
    && readLeft + zeroLeft == read + zero - k * PGSIZE
    && readLeft == read - Min(k * PGSIZE, read)
    && pos == ToOffT(ofs + Min(k * PGSIZE, read))
  }

  /** Adding to an off_t that already wrapped is adding and then wrapping. */
  lemma OffTAdd(a: int, b: int)
    ensures ToOffT(ToOffT(a) + b) == ToOffT(a + b)
  {
    var x := ToOffT(a);
    assert (x + b) % U32 == (a + b) % U32 by {
      var q := (x - a) / U32;
      assert x + b == (a + b) + q * U32;
    }
  }

  /** An off_t stored from a page-aligned value is page aligned. */
  lemma OffTAligned(x: int)
    requires x % PGSIZE == 0
    ensures ToOffT(x) % PGSIZE == 0
  {
    var q := (ToOffT(x) - x) / U32;
    assert ToOffT(x) == x + q * 0x10_0000 * PGSIZE;
  }

  /**
   * One more page: its descriptor is the plan's next one, the counters do not
   * underflow, and the loop stops exactly after the last page.
   */
  lemma ProgressStep(file: nat, read: nat, zero: nat, k: nat, readLeft: nat, zeroLeft: nat, ofs: int, pos: int)
    requires Progress(read, zero, k, readLeft, zeroLeft, ofs, pos) && (readLeft > 0 || zeroLeft > 0)
    ensures var pageRead := if readLeft < PGSIZE then readLeft else PGSIZE;
      && k < (read + zero) / PGSIZE && PGSIZE - pageRead <= zeroLeft
      && LoadInfo(file, pos, pageRead, PGSIZE - pageRead) == SegmentPlan(file, ofs, read, zero)[k]
      && Progress(read, zero, k + 1, readLeft - pageRead, zeroLeft - (PGSIZE - pageRead), ofs,
                  ToOffT(pos + pageRead))
  {
    assert (k + 1) * PGSIZE == k * PGSIZE + PGSIZE;
    OffTAdd(ofs + Min(k * PGSIZE, read), if readLeft < PGSIZE then readLeft else PGSIZE);
  }

  lemma ProgressDone(read: nat, zero: nat, k: nat, ofs: int, pos: int)
    requires Progress(read, zero, k, 0, 0, ofs, pos)
    ensures k == (read + zero) / PGSIZE
  {
  }

  lemma NextPageAligned(va: int)
    requires va % PGSIZE == 0
    ensures (va + PGSIZE) % PGSIZE == 0
  {
  }

  /** One iteration of load_segment's loop: register page `k` of the plan, or fail if its address is taken. */
  method RegisterPage(vm: VmManager, ghost spt0: map<PageRef, Page>, upage: Va, writable: bool,
                      ghost plan: seq<LoadInfo>, ghost k: nat, page: Va, info: LoadInfo)
    returns (added: bool)
    requires vm.Valid() && !vm.halted
    requires k < |plan| && info == plan[k] && page == upage + k * PGSIZE && page % PGSIZE == 0
    requires vm.spt == Registered(spt0, vm.cur, upage, writable, plan, k) && Free(spt0, vm.cur, upage, k)
    modifies vm`spt
    ensures vm.Valid()
    ensures added ==> vm.spt == Registered(spt0, vm.cur, upage, writable, plan, k + 1)
                      && Free(spt0, vm.cur, upage, k + 1)
    ensures !added ==> vm.spt == old(vm.spt) && FirstTaken(spt0, vm.cur, upage, 0, |plan|) == k
  {
    NextKeyUnregistered(spt0, vm.cur, upage, writable, plan, k, page);
    assert PgRoundDown(page) == page;
    added := vm.AllocPageWithInitializer(Anon, page, writable, LazyLoad(info));
    if added {
      FreeStep(spt0, vm.cur, upage, k, page);
      RegisterNext(spt0, vm.cur, upage, writable, plan, k, old(vm.spt), vm.spt, page);
    } else {
      FirstTakenAt(spt0, vm.cur, upage, k, |plan|, page);
    }
  }

  /**
   * load_segment (VM build): register one lazily loaded anonymous page per
   * page of the segment, stopping with failure at the first page whose
   * address is already in the current thread's table.
   */
  method LoadSegment(vm: VmManager, file: nat, ofs: int, upage: Va, read: nat, zero: nat, writable: bool)
    returns (ok: bool)
    requires vm.Valid() && !vm.halted
    requires (read + zero) % PGSIZE == 0 && upage % PGSIZE == 0 && ofs % PGSIZE == 0
    requires -0x8000_0000 <= ofs < 0x8000_0000
    modifies vm`spt
    ensures vm.Valid()
    ensures var n := (read + zero) / PGSIZE;
      ok <==> FirstTaken(old(vm.spt), vm.cur, upage, 0, n) == n
    ensures vm.spt == Registered(old(vm.spt), vm.cur, upage, writable, SegmentPlan(file, ofs, read, zero),
                                 FirstTaken(old(vm.spt), vm.cur, upage, 0, (read + zero) / PGSIZE))
  {
    ghost var spt0 := vm.spt;
    ghost var plan := SegmentPlan(file, ofs, read, zero);
    ghost var k := 0;
    var readLeft: nat, zeroLeft: nat := read, zero;
    var page, pos := upage, ofs;
    while readLeft > 0 || zeroLeft > 0
      invariant Progress(read, zero, k, readLeft, zeroLeft, ofs, pos)
      invariant page == upage + k * PGSIZE && page % PGSIZE == 0
      invariant vm.Valid() && !vm.halted
      invariant vm.spt == Registered(spt0, vm.cur, upage, writable, plan, k)
      invariant Free(spt0, vm.cur, upage, k)
      decreases readLeft + zeroLeft
    {
      var added;
      added, readLeft, zeroLeft, pos, page :=
        LoadPage(vm, spt0, file, read, zero, k, readLeft, zeroLeft, ofs, pos, upage, page, writable, plan);
      if !added {
        return false;
      }
      k := k + 1;
    }
    ProgressDone(read, zero, k, ofs, pos);
    FirstTakenAt(spt0, vm.cur, upage, k, k, page);
    ok := true;
  }

  /**
   * One iteration of load_segment's loop: register page `k` with its
   * descriptor, and the counters of the next iteration. When the address is
   * taken the loop stops there and the counters go unused.
   */
  method LoadPage(vm: VmManager, ghost spt0: map<PageRef, Page>, file: nat, ghost read: nat, ghost zero: nat,
                  ghost k: nat, readLeft: nat, zeroLeft: nat, ghost ofs: int, pos: int, upage: Va, page: Va,
                  writable: bool, ghost plan: seq<LoadInfo>)
    returns (added: bool, nextRead: nat, nextZero: nat, nextPos: int, nextPage: Va)
    requires Progress(read, zero, k, readLeft, zeroLeft, ofs, pos) && (readLeft > 0 || zeroLeft > 0)
    requires vm.Valid() && !vm.halted && plan == SegmentPlan(file, ofs, read, zero)
    requires page == upage + k * PGSIZE && page % PGSIZE == 0
    requires vm.spt == Registered(spt0, vm.cur, upage, writable, plan, k) && Free(spt0, vm.cur, upage, k)
    modifies vm`spt
    ensures vm.Valid() && !vm.halted
    ensures added ==>
      && Progress(read, zero, k + 1, nextRead, nextZero, ofs, nextPos)
      && nextPage == upage + (k + 1) * PGSIZE && nextPage % PGSIZE == 0
      && vm.spt == Registered(spt0, vm.cur, upage, writable, plan, k + 1) && Free(spt0, vm.cur, upage, k + 1)
      && nextRead + nextZero < readLeft + zeroLeft
    ensures !added ==> vm.spt == old(vm.spt) && FirstTaken(spt0, vm.cur, upage, 0, |plan|) == k
  {
    ProgressStep(file, read, zero, k, readLeft, zeroLeft, ofs, pos);
    var pageRead := if readLeft < PGSIZE then readLeft else PGSIZE;
    var info := LoadInfo(file, pos, pageRead, PGSIZE - pageRead);
    added := RegisterPage(vm, spt0, upage, writable, plan, k, page, info);
    nextRead, nextZero, nextPos, nextPage := Advance(file, read, zero, k, readLeft, zeroLeft, ofs, pos, upage, page);
  }

  /**
   * The end of one iteration of load_segment's loop: the counts drop by the
   * page's read and zero bytes, the address moves one page on, and the off_t
   * offset advances by the bytes read.
   */
  method Advance(file: nat, ghost read: nat, ghost zero: nat, ghost k: nat, readLeft: nat, zeroLeft: nat,
                 ghost ofs: int, pos: int, ghost upage: Va, page: Va)
    returns (nextRead: nat, nextZero: nat, nextPos: int, nextPage: Va)
    requires Progress(read, zero, k, readLeft, zeroLeft, ofs, pos) && (readLeft > 0 || zeroLeft > 0)
    requires page == upage + k * PGSIZE && page % PGSIZE == 0
    ensures Progress(read, zero, k + 1, nextRead, nextZero, ofs, nextPos)
    ensures nextPage == upage + (k + 1) * PGSIZE && nextPage % PGSIZE == 0
    ensures nextRead + nextZero < readLeft + zeroLeft
  {
    ProgressStep(file, read, zero, k, readLeft, zeroLeft, ofs, pos);
    var pageRead := if readLeft < PGSIZE then readLeft else PGSIZE;
    nextRead := readLeft - pageRead;
    nextZero := zeroLeft - (PGSIZE - pageRead);
    NextPageAligned(page);
    nextPage := page + PGSIZE;
    nextPos := ToOffT(pos + pageRead);
  }

  /** No page that held no frame is gone or changed: entries still waiting for their first fault survive. */
  ghost predicate KeepsUnclaimed(before: map<PageRef, Page>, after: map<PageRef, Page>)
  {
    forall q :: q in before && before[q].frame.None? ==> q in after && after[q] == before[q]
  }

  /** Every page of the plan is registered in `t`'s table, lazily loaded and without a frame. */
  ghost predicate PlanMapped(spt: map<PageRef, Page>, t: Tid, upage: Va, writable: bool, plan: seq<LoadInfo>)
  {
    forall k: nat :: k < |plan| ==>
      PageRef(t, upage + k * PGSIZE) in spt && spt[PageRef(t, upage + k * PGSIZE)] == PlannedPage(t, upage, writable, plan, k)
  }

  lemma PlanMappedKept(before: map<PageRef, Page>, after: map<PageRef, Page>, t: Tid, upage: Va, writable: bool,
                       plan: seq<LoadInfo>)
    requires PlanMapped(before, t, upage, writable, plan) && KeepsUnclaimed(before, after)
    ensures PlanMapped(after, t, upage, writable, plan)
  {
    forall k: nat | k < |plan|
      ensures PageRef(t, upage + k * PGSIZE) in after
      ensures after[PageRef(t, upage + k * PGSIZE)] == PlannedPage(t, upage, writable, plan, k)
    {
      assert before[PageRef(t, upage + k * PGSIZE)].frame.None?;
    }
  }

  /** What load hands to load_segment is page aligned: both page starts and the total of the split. */
  lemma SplitAligned(p: Phdr)
    requires p.filesz <= p.memsz
    ensures (SegmentSplit(p).readBytes + SegmentSplit(p).zeroBytes) % PGSIZE == 0
    ensures FilePage(p) % PGSIZE == 0 && MemPage(p) % PGSIZE == 0 && ToOffT(FilePage(p)) % PGSIZE == 0
  {
    SegmentSplitCovers(p);
    OffTAligned(FilePage(p));
  }

  /** load_segment's outcome for a whole segment: every page of its plan is registered and no earlier entry is lost. */
  lemma SegmentRegistered(spt0: map<PageRef, Page>, spt: map<PageRef, Page>, t: Tid, fileId: nat, p: Phdr)
    requires p.filesz <= p.memsz
    requires var s := SegmentSplit(p);
      var n := (s.readBytes + s.zeroBytes) / PGSIZE;
      && (s.readBytes + s.zeroBytes) % PGSIZE == 0
      && FirstTaken(spt0, t, MemPage(p), 0, n) == n
      && spt == Registered(spt0, t, MemPage(p), Writable(p), SegmentPlan(fileId, ToOffT(FilePage(p)), s.readBytes, s.zeroBytes),
                           FirstTaken(spt0, t, MemPage(p), 0, n))
    ensures PlanMapped(spt, t, MemPage(p), Writable(p), SegmentPlanOf(fileId, p)) && KeepsUnclaimed(spt0, spt)
  {
    RegisteredAll(spt0, t, MemPage(p), Writable(p), SegmentPlanOf(fileId, p));
  }

  /**
   * A whole segment registered into a table where none of its addresses was
   * taken: every page of the plan is there, and every earlier entry is kept.
   */
  lemma {:induction false} RegisteredAll(spt: map<PageRef, Page>, t: Tid, upage: Va, writable: bool,
                                         plan: seq<LoadInfo>)
    requires FirstTaken(spt, t, upage, 0, |plan|) == |plan|
    ensures var reg := Registered(spt, t, upage, writable, plan, |plan|);
      PlanMapped(reg, t, upage, writable, plan) && KeepsUnclaimed(spt, reg)
  {
    var reg := Registered(spt, t, upage, writable, plan, |plan|);
    forall k: nat | k < |plan|
      ensures PageRef(t, upage + k * PGSIZE) in reg
      ensures reg[PageRef(t, upage + k * PGSIZE)] == PlannedPage(t, upage, writable, plan, k)
    {
      RegisteredIs(spt, t, upage, writable, plan, |plan|, PageRef(t, upage + k * PGSIZE));
    }
    forall q | q in spt
      ensures q in reg && reg[q] == spt[q]
    {
      RegisteredIs(spt, t, upage, writable, plan, |plan|, q);
    }
  }

  /** The stack page setup_stack maps: one page below USER_STACK. */
  const STACK_PAGE: Va := USER_STACK - PGSIZE

  /**
   * setup_stack (VM build): register an anonymous writable page right below
   * USER_STACK and claim it at once; on success the stack pointer starts at
   * USER_STACK and the thread's stack bottom is that page.
   */
  method SetupStack(vm: VmManager, f: Cpu.IntrFrame) returns (ok: bool)
    requires vm.Valid() && !vm.halted
    modifies vm`frames, vm`cursor, vm`pml4, vm`halted, vm`spt, vm`stackBottom, f`rsp
    ensures vm.Valid()
    ensures var r := PageRef(vm.cur, STACK_PAGE);
      ok ==> && r !in old(vm.spt) && r in vm.spt && vm.spt[r].frame.Some?
             && vm.spt[r] == Page(STACK_PAGE, true, vm.cur, Live(Anon), vm.spt[r].frame)
             && r in vm.pml4 && vm.pml4[r] == Pte(vm.spt[r].frame.value, true, true)
    ensures PageRef(vm.cur, STACK_PAGE) in old(vm.spt) ==> !ok && !vm.halted && vm.spt == old(vm.spt)
    ensures ok ==> !vm.halted && f.rsp == USER_STACK && vm.stackBottom == STACK_PAGE
    ensures !ok ==> f.rsp == old(f.rsp) && vm.stackBottom == old(vm.stackBottom)
    ensures KeepsUnclaimed(old(vm.spt), vm.spt)
    ensures OnlyCleared(old(vm.pml4), vm.pml4 - {PageRef(vm.cur, STACK_PAGE)})
  {
    var r := PageRef(vm.cur, STACK_PAGE);
    assert PgRoundDown(STACK_PAGE) == STACK_PAGE;
    var added := vm.AllocPageWithInitializer(Anon, STACK_PAGE, true, NoLoader);
    if !added {
      return false;
    }
    ghost var spt1 := vm.spt;
    ok := vm.ClaimPage(STACK_PAGE);
    ClaimKeeps(old(vm.spt), spt1, vm.spt, r);
    if ok {
      f.rsp := USER_STACK;
      vm.stackBottom := STACK_PAGE;
    }
  }

  /** Adding a fresh page and then claiming it leaves every frameless page as it was. */
  lemma ClaimKeeps(s0: map<PageRef, Page>, s1: map<PageRef, Page>, s2: map<PageRef, Page>, r: PageRef)
    requires r !in s0 && r in s1 && s1 - {r} == s0
    requires FramesDropped(s1 - {r}, s2 - {r})
    ensures KeepsUnclaimed(s0, s2)
  {
    forall q | q in s0 && s0[q].frame.None?
      ensures q in s2 && s2[q] == s0[q]
    {
      assert q in s1 - {r};
      assert q in s2 - {r};
    }
  }

  /** A value stored into an off_t, a 32-bit signed integer: kept when it fits, wrapped modulo 2^32 otherwise. */
  function ToOffT(x: int): (r: int)
    ensures -0x8000_0000 <= r < 0x8000_0000
    ensures -0x8000_0000 <= x < 0x8000_0000 ==> r == x
    ensures (r - x) % U32 == 0
  {
    var m := x % U32;
    if m < 0x8000_0000 then m else m - U32
  }

  /** Where load reads program header `i`: e_phoff as an off_t, advanced by one header per step. */
  function PhdrOffset(h: Ehdr, i: nat): int
  {
    ToOffT(h.phoff) + PHDR_SIZE * i
  }

  /** Program header `i` as load reads it, or none when the read falls outside the file. */
  function PhdrAt(file: seq<Byte>, h: Ehdr, i: nat): (r: Option<Phdr>)
    ensures r.Some? ==> 0 <= PhdrOffset(h, i) && PhdrOffset(h, i) + PHDR_SIZE <= |file|
  {
    var ofs := PhdrOffset(h, i);
    if 0 <= ofs && ofs + PHDR_SIZE <= |file| then Some(DecodePhdr(file[ofs..ofs + PHDR_SIZE])) else None
  }

  /** A program header load accepts: ignored, or a PT_LOAD segment validate_segment accepts. */
  predicate PhdrAccepted(p: Phdr, fileLength: nat)
  {
    var action := Dispatch(p.ptype);
    action.Ignore? || (action.LoadSegment? && ValidateSegment(p, fileLength))
  }

  /** A segment load hands to load_segment. */
  predicate IsLoaded(p: Phdr, fileLength: nat)
  {
    Dispatch(p.ptype).LoadSegment? && ValidateSegment(p, fileLength)
  }

  /** The descriptors of a loaded segment: its pages from the page start of its file offset, passed as an off_t. */
  function SegmentPlanOf(fileId: nat, p: Phdr): (plan: seq<LoadInfo>)
    requires p.filesz <= p.memsz
  {
    SegmentSplitCovers(p);
    var s := SegmentSplit(p);
    SegmentPlan(fileId, ToOffT(FilePage(p)), s.readBytes, s.zeroBytes)
  }

  /** The first `n` program headers can be read and are accepted. */
  predicate ProgramAccepted(file: seq<Byte>, h: Ehdr, n: nat)
  {
    forall i: nat :: i < n ==> PhdrAt(file, h, i).Some? && PhdrAccepted(PhdrAt(file, h, i).value, |file|)
  }

  /** Every loaded segment among the first `n` program headers has all its pages registered in `t`'s table. */
  ghost predicate ProgramMapped(spt: map<PageRef, Page>, t: Tid, fileId: nat, file: seq<Byte>, h: Ehdr, n: nat)
  {
    forall i: nat :: i < n && PhdrAt(file, h, i).Some? && IsLoaded(PhdrAt(file, h, i).value, |file|) ==>
      var p := PhdrAt(file, h, i).value;
      PlanMapped(spt, t, MemPage(p), Writable(p), SegmentPlanOf(fileId, p))
  }

  lemma ProgramMappedKept(before: map<PageRef, Page>, after: map<PageRef, Page>, t: Tid, fileId: nat,
                          file: seq<Byte>, h: Ehdr, n: nat)
    requires ProgramMapped(before, t, fileId, file, h, n) && KeepsUnclaimed(before, after)
    ensures ProgramMapped(after, t, fileId, file, h, n)
  {
    forall i: nat | i < n && PhdrAt(file, h, i).Some? && IsLoaded(PhdrAt(file, h, i).value, |file|)
      ensures var p := PhdrAt(file, h, i).value;
        PlanMapped(after, t, MemPage(p), Writable(p), SegmentPlanOf(fileId, p))
    {
      var p := PhdrAt(file, h, i).value;
      PlanMappedKept(before, after, t, MemPage(p), Writable(p), SegmentPlanOf(fileId, p));
    }
  }

  /** Header `i` accepted and, when loaded, mapped: the program is accepted and mapped one header further. */
  lemma ProgramStep(spt: map<PageRef, Page>, t: Tid, fileId: nat, file: seq<Byte>, h: Ehdr, i: nat)
    requires ProgramAccepted(file, h, i) && ProgramMapped(spt, t, fileId, file, h, i)
    requires PhdrAt(file, h, i).Some? && PhdrAccepted(PhdrAt(file, h, i).value, |file|)
    requires var p := PhdrAt(file, h, i).value;
      IsLoaded(p, |file|) ==> PlanMapped(spt, t, MemPage(p), Writable(p), SegmentPlanOf(fileId, p))
    ensures ProgramAccepted(file, h, i + 1) && ProgramMapped(spt, t, fileId, file, h, i + 1)
  {
  }

  /**
   * One step of load's program-header loop: read the header at `ofs`, then
   * ignore it, give up on it, or validate it and load its segment.
   */
  method LoadPhdr(vm: VmManager, fileId: nat, file: seq<Byte>, h: Ehdr, i: nat, ofs: int) returns (ok: bool)
    requires vm.Valid() && !vm.halted && ofs == PhdrOffset(h, i)
    requires ProgramAccepted(file, h, i) && ProgramMapped(vm.spt, vm.cur, fileId, file, h, i)
    modifies vm`spt
    ensures vm.Valid() && !vm.halted
    ensures ok ==> ProgramAccepted(file, h, i + 1) && ProgramMapped(vm.spt, vm.cur, fileId, file, h, i + 1)
    ensures PhdrAt(file, h, i).Some? && !IsLoaded(PhdrAt(file, h, i).value, |file|) ==>
      ok == PhdrAccepted(PhdrAt(file, h, i).value, |file|) && vm.spt == old(vm.spt)
  {
    var read := ReadPhdr(file, h, i, ofs);
    if read.None? {
      return false;
    }
    var p := read.value;
    var action := Dispatch(p.ptype);
    if action == Ignore {
      ok := true;
    } else if action == Abort {
      ok := false;
    } else if ValidateSegment(p, |file|) {
      ok := LoadSegmentOf(vm, fileId, p);
    } else {
      ok := false;
    }
    if ok {
      ProgramStep(vm.spt, vm.cur, fileId, file, h, i);
    }
  }

  /**
   * The file_seek and file_read of one program header: none when the offset
   * lies outside the file or fewer than PHDR_SIZE bytes are left there.
   */
  method ReadPhdr(file: seq<Byte>, h: Ehdr, i: nat, ofs: int) returns (r: Option<Phdr>)
    requires ofs == PhdrOffset(h, i)
    ensures r == PhdrAt(file, h, i)
  {
    if ofs < 0 || ofs > |file| {
      return None;
    }
    if Available(file, ofs, PHDR_SIZE) != PHDR_SIZE {
      return None;
    }
    r := Some(DecodePhdr(file[ofs..ofs + PHDR_SIZE]));
  }

  /**
   * The PT_LOAD case of load: split the validated segment into the bytes to
   * read and to zero, and load it from the page starts of its file offset
   * and its address.
   */
  method LoadSegmentOf(vm: VmManager, fileId: nat, p: Phdr) returns (ok: bool)
    requires vm.Valid() && !vm.halted && p.filesz <= p.memsz
    modifies vm`spt
    ensures vm.Valid()
    ensures ok ==> && PlanMapped(vm.spt, vm.cur, MemPage(p), Writable(p), SegmentPlanOf(fileId, p))
                   && KeepsUnclaimed(old(vm.spt), vm.spt)
  {
    var s := SegmentSplit(p);
    SplitAligned(p);
    ghost var spt0 := vm.spt;
    ok := LoadSegment(vm, fileId, ToOffT(FilePage(p)), MemPage(p), s.readBytes, s.zeroBytes, Writable(p));
    if ok {
      SegmentRegistered(spt0, vm.spt, vm.cur, fileId, p);
    }
  }

  /**
   * load: open the executable (`file` is none when filesys_open fails), check
   * its ELF header, walk its program headers loading every PT_LOAD segment,
   * map the stack page, and start at the entry point. pml4_create may fail;
   * whether it does is left open.
   */
  method Load(vm: VmManager, fileId: nat, file: Option<seq<Byte>>, f: Cpu.IntrFrame) returns (ok: bool)
    requires vm.Valid() && !vm.halted
    requires file.Some? ==> |file.value| < 0x8000_0000
    modifies vm`frames, vm`cursor, vm`pml4, vm`halted, vm`spt, vm`stackBottom, f`rsp, f`rip
    ensures vm.Valid()
    ensures ok ==> file.Some? && ReadHeader(file.value).Some?
    ensures ok ==> var h := ReadHeader(file.value).value;
      && ProgramAccepted(file.value, h, h.phnum)
      && ProgramMapped(vm.spt, vm.cur, fileId, file.value, h, h.phnum)
      && f.rip == h.entry && f.rsp == USER_STACK && vm.stackBottom == STACK_PAGE
      && PageRef(vm.cur, STACK_PAGE) in vm.spt && vm.spt[PageRef(vm.cur, STACK_PAGE)].frame.Some?
    ensures ok ==> forall r :: r in vm.pml4 && r.tid == vm.cur ==> r == PageRef(vm.cur, STACK_PAGE)
    ensures !ok ==> f.rip == old(f.rip)
  {
    var created: bool := *;
    if !created {
      return false;
    }
    vm.FreshPml4();
    if file.None? {
      return false;
    }
    var bytes := file.value;
    var header := ReadHeader(bytes);
    if header.None? {
      return false;
    }
    var h := header.value;
    var ofs := ToOffT(h.phoff);
    var i: nat := 0;
    while i < h.phnum
      invariant i <= h.phnum && ofs == PhdrOffset(h, i)
      invariant vm.Valid() && !vm.halted
      invariant ProgramAccepted(bytes, h, i) && ProgramMapped(vm.spt, vm.cur, fileId, bytes, h, i)
      invariant f.rip == old(f.rip)
      invariant forall r :: r in vm.pml4 ==> r.tid != vm.cur
    {
      ok := LoadPhdr(vm, fileId, bytes, h, i, ofs);
      if !ok {
        return false;
      }
      assert ofs + PHDR_SIZE < 0x8000_0000;  // file_ofs += sizeof phdr stays within off_t
      ofs := ofs + PHDR_SIZE;
      i := i + 1;
    }
    ghost var spt1 := vm.spt;
    ok := SetupStack(vm, f);
    if !ok {
      return false;
    }
    ProgramMappedKept(spt1, vm.spt, vm.cur, fileId, bytes, h, h.phnum);
    f.rip := h.entry;
  }
}
