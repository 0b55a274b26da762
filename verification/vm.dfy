/**
 * The virtual-memory manager of vm/vm.c: pages and their supplemental page
 * tables, the global frame table with its second-chance eviction cursor, the
 * claim path, the page-fault handler with stack growth, and the fork copier.
 *
 * All threads' supplemental page tables live in one map keyed by (thread,
 * page address), and all threads' hardware page tables (pml4) in another.
 */
module Vm {
  import opened Wrappers
  import opened Mem
  import Clock

  type Tid = nat
  type Va = int

  /** VM_TYPE of a page: anonymous or file-backed (the stack marker bit is dropped by VM_TYPE). */
  datatype VmType = Anon | FileBacked

  /** The lazy-load descriptor: read `readBytes` from `file` at `ofs`, then zero `zeroBytes`. */
  datatype LoadInfo = LoadInfo(file: nat, ofs: int, readBytes: nat, zeroBytes: nat)

  /** The (init, aux) pair handed to vm_alloc_page_with_initializer; vm_alloc_page passes none. */
  datatype Loader = NoLoader | LazyLoad(info: LoadInfo)

  /** Backend state: still uninitialised (pending type and loader), or live as its final type. */
  datatype PageState = Uninit(pending: VmType, loader: Loader) | Live(kind: VmType)

  /** struct page: address, permission, owning thread, backend state and the frame it holds. */
  datatype Page = Page(va: Va, writable: bool, owner: Tid, state: PageState, frame: Option<nat>)

  /** A page named by its owning thread and its address: the key of the supplemental page tables. */
  datatype PageRef = PageRef(tid: Tid, va: Va)

  /** struct frame: the page it holds (if any) and the bytes of its physical page. */
  datatype Frame = Frame(page: Option<PageRef>, data: seq<Byte>)

  /** A hardware page-table entry: target frame, writable bit, accessed bit. */
  datatype Pte = Pte(kva: nat, writable: bool, accessed: bool)

  /** page_get_type: the type the page has, or will have once initialised. */
  function PageGetType(p: Page): VmType
  {
    match p.state
    case Uninit(t, _) => t
    case Live(t) => t
  }

  /** The state an uninitialised page migrates to on its first successful swap-in. */
  function Initialized(s: PageState): (r: PageState)
    ensures r.Live?
  {
    match s
    case Uninit(t, _) => Live(t)
    case Live(_) => s
  }

  /** page_get_type already reports the type a page will have after initialisation. */
  lemma TypeSurvivesInitialization(p: Page)
    ensures PageGetType(p.(state := Initialized(p.state))) == PageGetType(p)
    ensures p.state.Uninit? ==> PageGetType(p) == p.state.pending
  {
  }

  /** vm_less_func: the hash table's order on pages, by address. */
  predicate VmLess(a: Page, b: Page)
  {
    a.va < b.va
  }

  /**
   * vm_less_func is a strict total order whose equivalence is equality of
   * addresses, so the hash table holds at most one page per address: a map keyed by va.
   */
  lemma VmLessKeysByAddress(a: Page, b: Page, c: Page)
    ensures !VmLess(a, a)
    ensures VmLess(a, b) && VmLess(b, c) ==> VmLess(a, c)
    ensures (!VmLess(a, b) && !VmLess(b, a)) <==> a.va == b.va
  {
  }

  /** Every table entry is stored under its own page's owner and (page-aligned) address. */
  ghost predicate KeysMatch(spt: map<PageRef, Page>)
  {
    forall r :: r in spt ==> spt[r].va == r.va && spt[r].owner == r.tid && r.va % PGSIZE == 0
  }

  /**
   * Page and frame point at each other: a page's frame holds that page, and a
   * frame's page holds that frame. Hence no two pages share a frame.
   */
  ghost predicate Linked(frames: seq<Frame>, spt: map<PageRef, Page>)
  {
    && (forall r :: r in spt && spt[r].frame.Some? ==>
          spt[r].frame.value < |frames| && frames[spt[r].frame.value].page == Some(r))
    && (forall i :: 0 <= i < |frames| && frames[i].page.Some? ==>
          frames[i].page.value in spt && spt[frames[i].page.value].frame == Some(i))
  }

  /** No two frames hold the same page, and no two pages hold the same frame. */
  lemma LinkedIsOneToOne(frames: seq<Frame>, spt: map<PageRef, Page>, i: nat, j: nat, p: PageRef, q: PageRef)
    requires Linked(frames, spt)
    ensures i < |frames| && j < |frames| && frames[i].page.Some? && frames[i].page == frames[j].page ==> i == j
    ensures p in spt && q in spt && spt[p].frame.Some? && spt[p].frame == spt[q].frame ==> p == q
  {
  }

  /**
   * spt_find_page: the page registered at the page boundary below `va`
   * in thread `t`'s table, or none.
   */
  function SptFind(spt: map<PageRef, Page>, t: Tid, va: Va): (r: Option<Page>)
    requires KeysMatch(spt)
    ensures r.Some? ==> r.value in spt.Values && r.value.owner == t && r.value.va == PgRoundDown(va)
    ensures r.None? <==> forall p :: p in spt.Values && p.owner == t ==> p.va != PgRoundDown(va)
  {
    var key := PageRef(t, PgRoundDown(va));
    if key in spt then Some(spt[key]) else None
  }

  /** Lookup normalises its key: any address of a page finds the same page as the page's start. */
  lemma FindNormalises(spt: map<PageRef, Page>, t: Tid, base: Va, k: int)
    requires KeysMatch(spt) && base % PGSIZE == 0 && 0 <= k < PGSIZE
    ensures SptFind(spt, t, base + k) == SptFind(spt, t, base)
  {
    RoundDownWithinPage(base, k);
  }

  /** pml4_is_accessed: false for an unmapped address. */
  predicate IsAccessed(pml4: map<PageRef, Pte>, r: PageRef)
  {
    r in pml4 && pml4[r].accessed
  }

  /** The hot bit of each frame: it holds a page whose accessed bit is set. */
  function HotBits(frames: seq<Frame>, pml4: map<PageRef, Pte>): (hot: seq<bool>)
    ensures |hot| == |frames|
  {
    seq(|frames|, i requires 0 <= i < |frames| =>
      frames[i].page.Some? && IsAccessed(pml4, frames[i].page.value))
  }

  /** The pages held by the frames with the given indices. */
  function PagesOf(frames: seq<Frame>, idx: set<nat>): set<PageRef>
  {
    set i | i in idx && i < |frames| && frames[i].page.Some? :: frames[i].page.value
  }

  /** The page table with the accessed bit of every page in `s` cleared. */
  function ClearAccessed(pml4: map<PageRef, Pte>, s: set<PageRef>): (m: map<PageRef, Pte>)
    ensures m.Keys == pml4.Keys
  {
    map r | r in pml4 :: if r in s then pml4[r].(accessed := false) else pml4[r]
  }

  lemma ClearOneMore(m: map<PageRef, Pte>, s: set<PageRef>, r: PageRef)
    requires r in m
    ensures ClearAccessed(m, s)[r := ClearAccessed(m, s)[r].(accessed := false)] == ClearAccessed(m, s + {r})
  {
  }

  lemma PagesOfOneMore(frames: seq<Frame>, idx: set<nat>, c: nat)
    requires c < |frames| && frames[c].page.Some?
    ensures PagesOf(frames, idx + {c}) == PagesOf(frames, idx) + {frames[c].page.value}
  {
  }

  lemma PagesOfFree(frames: seq<Frame>, idx: set<nat>, c: nat)
    requires c < |frames| && frames[c].page.None?
    ensures PagesOf(frames, idx + {c}) == PagesOf(frames, idx)
  {
  }

  /** The indices of the frames the scan from `start` passes over. */
  function PassedSet(hot: seq<bool>, start: nat): set<nat>
    requires start <= |hot|
  {
    set i: nat | i < |hot| && Clock.PassedOver(hot, start, i)
  }

  /**
   * The frames the scan passes over, by where it stops: before a cold frame `k`
   * at or after `start`; else through the end and then before a cold frame `k`
   * ahead of `start`; else every frame.
   */
  lemma PassedSetIs(hot: seq<bool>, start: nat, seen: set<nat>)
    requires start <= |hot|
    requires forall i :: i in seen ==> i < |hot|
    requires Clock.FirstCold(hot, start, |hot|).Some? ==>
      forall i: nat :: i in seen <==> start <= i < Clock.FirstCold(hot, start, |hot|).value
    requires Clock.FirstCold(hot, start, |hot|).None? && Clock.FirstCold(hot, 0, start).Some? ==>
      forall i: nat :: i in seen <==> start <= i < |hot| || i < Clock.FirstCold(hot, 0, start).value
    requires Clock.FirstCold(hot, start, |hot|).None? && Clock.FirstCold(hot, 0, start).None? ==>
      forall i: nat :: i in seen <==> i < |hot|
    ensures PassedSet(hot, start) == seen
  {
  }

  /** The accessed-bit state after the clock scan from `start`. */
  function AfterScan(frames: seq<Frame>, pml4: map<PageRef, Pte>, start: nat): map<PageRef, Pte>
    requires start <= |frames|
  {
    ClearAccessed(pml4, PagesOf(frames, PassedSet(HotBits(frames, pml4), start)))
  }

  const GROWTH_LIMIT: int := 8
  /** The lowest address the stack may grow to: 1 MiB below its top. */
  const STACK_LIMIT: int := USER_STACK - 0x10_0000

  /**
   * The lowest address the growth heuristic accepts for stack pointer `rsp`:
   * rsp - GROWTH_LIMIT on a 64-bit pointer, which wraps to the top of the
   * address space when rsp is below GROWTH_LIMIT.
   */
  function GrowthFloor(rsp: int): (floor: int)
    requires 0 <= rsp < U64
    ensures 0 <= floor < U64
    ensures rsp >= GROWTH_LIMIT ==> floor == rsp - GROWTH_LIMIT
    ensures rsp < GROWTH_LIMIT ==> floor >= U64 - GROWTH_LIMIT
  {
    (rsp - GROWTH_LIMIT) % U64
  }

  /** What vm_try_handle_fault does with a fault. */
  datatype FaultAction = Reject | ClaimExisting(r: PageRef) | GrowStack(at: Va)

  /**
   * The fault classification of vm_try_handle_fault: `frameRsp` is the stack
   * pointer in the trap frame, `userRsp` the copy saved on entry to the kernel.
   */
  function ClassifyFault(spt: map<PageRef, Page>, cur: Tid, stackBottom: int, addr: Va, user: bool,
                         notPresent: bool, frameRsp: int, userRsp: int): (a: FaultAction)
    requires KeysMatch(spt)
    requires 0 <= frameRsp < U64 && 0 <= userRsp < U64
    ensures IsKernelVaddr(addr) || !notPresent ==> a == Reject
    ensures a.ClaimExisting? ==> a.r in spt && a.r == PageRef(cur, PgRoundDown(addr))
    ensures a.GrowStack? ==>
      && SptFind(spt, cur, addr).None?
      && STACK_LIMIT <= addr < USER_STACK
      && addr >= GrowthFloor(if user then frameRsp else userRsp)
      && a.at == stackBottom - PGSIZE
    ensures a == Reject && !IsKernelVaddr(addr) && notPresent ==>
      SptFind(spt, cur, addr).None? &&
      !(STACK_LIMIT <= addr < USER_STACK && addr >= GrowthFloor(if user then frameRsp else userRsp))
  {
    if IsKernelVaddr(addr) then Reject
    else if !notPresent then Reject
    else match SptFind(spt, cur, addr)
      case Some(p) => ClaimExisting(PageRef(cur, p.va))
      case None =>
        var rsp := if user then frameRsp else userRsp;
        if addr >= STACK_LIMIT && USER_STACK > addr && addr >= GrowthFloor(rsp)
        then GrowStack(stackBottom - PGSIZE)
        else Reject
  }

  /**
   * A stack pointer below GROWTH_LIMIT never lets a fault grow the stack: the
   * wrapped floor lies above every user address.
   */
  lemma LowRspNeverGrows(spt: map<PageRef, Page>, cur: Tid, stackBottom: int, addr: Va, user: bool,
                         notPresent: bool, frameRsp: int, userRsp: int)
    requires KeysMatch(spt)
    requires 0 <= frameRsp < U64 && 0 <= userRsp < U64
    requires (if user then frameRsp else userRsp) < GROWTH_LIMIT
    ensures !ClassifyFault(spt, cur, stackBottom, addr, user, notPresent, frameRsp, userRsp).GrowStack?
  {
    var rsp := if user then frameRsp else userRsp;
    assert GrowthFloor(rsp) >= U64 - GROWTH_LIMIT > USER_STACK;
  }

  /** Linking a free frame with a frameless page keeps the two sides pointing at each other. */
  lemma LinkOne(frames: seq<Frame>, spt: map<PageRef, Page>, r: PageRef, f: nat)
    requires Linked(frames, spt) && r in spt && spt[r].frame.None?
    requires f < |frames| && frames[f].page.None?
    ensures Linked(frames[f := frames[f].(page := Some(r))], spt[r := spt[r].(frame := Some(f))])
  {
    var frames', spt' := frames[f := frames[f].(page := Some(r))], spt[r := spt[r].(frame := Some(f))];
    forall q | q in spt' && spt'[q].frame.Some?
      ensures spt'[q].frame.value < |frames'| && frames'[spt'[q].frame.value].page == Some(q)
    {
      if q != r {
        assert spt'[q].frame.value != f;
      }
    }
  }

  /** Dropping every page of one thread, and releasing the frames they held, keeps the links. */
  lemma KillKeepsLinks(frames: seq<Frame>, spt: map<PageRef, Page>,
                       frames': seq<Frame>, spt': map<PageRef, Page>, t: Tid)
    requires Linked(frames, spt) && |frames'| == |frames|
    requires forall i :: 0 <= i < |frames| ==>
      frames'[i] == if frames[i].page.Some? && frames[i].page.value.tid == t then frames[i].(page := None) else frames[i]
    requires forall r :: r in spt' <==> r in spt && r.tid != t
    requires forall r :: r in spt' ==> spt'[r] == spt[r]
    ensures Linked(frames', spt')
  {
  }

  /**
   * After a claim of `r`, every other page that still holds a frame holds the
   * one it held before, not `r`'s, and that frame's bytes are unchanged.
   */
  lemma SurvivorsKeepContents(frames1: seq<Frame>, spt1: map<PageRef, Page>,
                              frames2: seq<Frame>, spt2: map<PageRef, Page>, r: PageRef)
    requires Linked(frames1, spt1) && Linked(frames2, spt2)
    requires FramesDropped(spt1 - {r}, spt2 - {r})
    requires r in spt2 && spt2[r].frame.Some?
    requires |frames2| >= |frames1|
    requires forall i :: 0 <= i < |frames1| && i != spt2[r].frame.value ==> frames2[i] == frames1[i]
    ensures forall q :: q in spt1 && q != r && q in spt2 && spt2[q].frame.Some? ==>
      && spt2[q].frame == spt1[q].frame && spt2[q].frame.value != spt2[r].frame.value
      && frames2[spt2[q].frame.value].data == frames1[spt1[q].frame.value].data
  {
    forall q | q in spt1 && q != r && q in spt2 && spt2[q].frame.Some?
      ensures spt2[q].frame == spt1[q].frame && spt2[q].frame.value != spt2[r].frame.value
      ensures frames2[spt2[q].frame.value].data == frames1[spt1[q].frame.value].data
    {
      assert q in spt1 - {r};
      LinkedIsOneToOne(frames2, spt2, 0, 0, q, r);
    }
  }

  /** A page added to a table and then claimed: the other pages at most lost their frames. */
  lemma AddThenDrop(s0: map<PageRef, Page>, s1: map<PageRef, Page>, s2: map<PageRef, Page>, r: PageRef)
    requires r !in s0 && r in s1 && s1 == s0[r := s1[r]]
    requires FramesDropped(s1 - {r}, s2 - {r}) && r in s2
    ensures forall q :: q in s2 <==> q in s0 || q == r
    ensures forall q :: q in s0 ==> s2[q] == s0[q] || s2[q] == s0[q].(frame := None)
  {
    assert s1 - {r} == s0;
    forall q | q in s0
      ensures s2[q] == s0[q] || s2[q] == s0[q].(frame := None)
    {
      assert q in s2 - {r};
    }
  }

  /** Frame contents play no part in the links. */
  lemma LinkedIgnoresData(frames: seq<Frame>, spt: map<PageRef, Page>, f: nat, d: seq<Byte>)
    requires Linked(frames, spt) && f < |frames|
    ensures Linked(frames[f := frames[f].(data := d)], spt)
  {
  }

  /** Cutting a frame loose from its page keeps the remaining links. */
  lemma UnlinkKeepsLinks(frames: seq<Frame>, spt: map<PageRef, Page>, f: nat)
    requires Linked(frames, spt) && f < |frames| && frames[f].page.Some?
    ensures frames[f].page.value in spt
    ensures Linked(frames[f := frames[f].(page := None)],
                   spt[frames[f].page.value := spt[frames[f].page.value].(frame := None)])
  {
    var r := frames[f].page.value;
    forall q | q in spt && q != r && spt[q].frame.Some?
      ensures spt[q].frame.value != f
    {
      LinkedIsOneToOne(frames, spt, 0, 0, q, r);
    }
  }

  /** Replacing a page by one with the same address and owner keeps the keys consistent. */
  lemma KeysMatchKeepsIdentity(spt: map<PageRef, Page>, r: PageRef, p: Page)
    requires KeysMatch(spt) && r in spt && p.va == spt[r].va && p.owner == spt[r].owner
    ensures KeysMatch(spt[r := p])
  {
  }

  /** Frame contents and page states play no part in the links. */
  lemma LinkedIgnoresContents(frames: seq<Frame>, spt: map<PageRef, Page>, f: nat, d: seq<Byte>, r: PageRef, st: PageState)
    requires Linked(frames, spt) && f < |frames| && r in spt
    ensures Linked(frames[f := frames[f].(data := d)], spt[r := spt[r].(state := st)])
  {
  }

  /**
   * The table and frame side of claiming `r`: other pages at most lose their
   * frame, `r` changes only in its frame and (on success) its state, and unless
   * the kernel stopped `r` holds a frame and no other frame changed.
   */
  ghost predicate Claimed(s1: map<PageRef, Page>, f1: seq<Frame>, s2: map<PageRef, Page>, f2: seq<Frame>,
                          r: PageRef, ok: bool, halted: bool)
  {
    && (ok ==> !halted)
    && r in s1 && r in s2
    && FramesDropped(s1 - {r}, s2 - {r})
    && |f2| >= |f1|
    && s2[r] == s1[r].(frame := s2[r].frame, state := if ok then Initialized(s1[r].state) else s1[r].state)
    && (!halted ==>
          && s2[r].frame.Some? && s2[r].frame.value < |f2|
          && forall i :: 0 <= i < |f1| && i != s2[r].frame.value ==> f2[i] == f1[i])
  }

  /** The same pages, each unchanged or having lost its frame to eviction. */
  ghost predicate FramesDropped(before: map<PageRef, Page>, after: map<PageRef, Page>)
  {
    && before.Keys == after.Keys
    && forall q :: q in before ==> after[q] == before[q] || after[q] == before[q].(frame := None)
  }

  /** No mapping is added or retargeted and no accessed bit is set. */
  ghost predicate OnlyCleared(before: map<PageRef, Pte>, after: map<PageRef, Pte>)
  {
    forall q :: q in after ==>
      q in before && after[q].kva == before[q].kva && after[q].writable == before[q].writable &&
      (after[q].accessed ==> before[q].accessed)
  }

  lemma FramesDroppedMinus(before: map<PageRef, Page>, after: map<PageRef, Page>, r: PageRef)
    requires FramesDropped(before, after)
    ensures FramesDropped(before - {r}, after - {r})
  {
  }

  lemma OnlyClearedMinus(before: map<PageRef, Pte>, after: map<PageRef, Pte>, r: PageRef)
    requires OnlyCleared(before, after)
    ensures OnlyCleared(before, after - {r})
  {
  }

  /** The clock scan only clears accessed bits. */
  lemma ScanOnlyClears(frames: seq<Frame>, pml4: map<PageRef, Pte>, start: nat)
    requires start <= |frames|
    ensures OnlyCleared(pml4, AfterScan(frames, pml4, start))
  {
  }

  /** `child` is the copy fork makes of `parent` for thread `dst`: same address, permission and state. */
  ghost predicate CopyOf(parent: Page, child: Page, dst: Tid)
  {
    child.va == parent.va && child.owner == dst && child.writable == parent.writable && child.state == parent.state
  }

  /** Pages `a` and `b`, when both are resident, hold the same bytes. */
  ghost predicate SameContents(frames: seq<Frame>, spt: map<PageRef, Page>, a: PageRef, b: PageRef)
  {
    a in spt && b in spt && spt[a].frame.Some? && spt[b].frame.Some? &&
    spt[a].frame.value < |frames| && spt[b].frame.value < |frames| ==>
      frames[spt[a].frame.value].data == frames[spt[b].frame.value].data
  }

  /**
   * What one round of the copy leaves: the child page at `va` added with the
   * parent's address and permission, other pages at most lost their frames,
   * surviving residents kept their bytes, and on success the child is a copy
   * of the parent, with the same bytes when the parent was live.
   */
  ghost predicate RoundOutcome(sA: map<PageRef, Page>, fA: seq<Frame>, sB: map<PageRef, Page>, fB: seq<Frame>,
                               src: Tid, dst: Tid, va: Va, ok: bool, halted: bool)
  {
    && PageRef(src, va) in sA
    && (forall q :: q in sB <==> q in sA || q == PageRef(dst, va))
    && (forall q :: q in sA ==> sB[q] == sA[q] || sB[q] == sA[q].(frame := None))
    && sB[PageRef(dst, va)].va == va && sB[PageRef(dst, va)].owner == dst
    && sB[PageRef(dst, va)].writable == sA[PageRef(src, va)].writable
    && (ok ==> CopyOf(sA[PageRef(src, va)], sB[PageRef(dst, va)], dst))
    && (!halted ==> BytesKept(sA, fA, sB, fB))
    && (ok && sA[PageRef(src, va)].state.Live? ==>
          && sB[PageRef(src, va)].frame.Some? && sB[PageRef(dst, va)].frame.Some?
          && SameContents(fB, sB, PageRef(src, va), PageRef(dst, va)))
  }

  /** Every page resident in both states holds the same bytes in both. */
  ghost predicate BytesKept(sA: map<PageRef, Page>, fA: seq<Frame>, sB: map<PageRef, Page>, fB: seq<Frame>)
  {
    forall q :: q in sA && q in sB && sB[q].frame.Some? && sA[q].frame.Some? ==>
      sB[q].frame.value < |fB| && sA[q].frame.value < |fA| &&
      fB[sB[q].frame.value].data == fA[sA[q].frame.value].data
  }

  /**
   * Bytes kept across two steps in which pages at most lose their frames are
   * kept across both: a page resident at the end was resident, in the same
   * frame, in between.
   */
  lemma BytesKeptTrans(s0: map<PageRef, Page>, f0: seq<Frame>, sA: map<PageRef, Page>, fA: seq<Frame>,
                       sB: map<PageRef, Page>, fB: seq<Frame>)
    requires BytesKept(s0, f0, sA, fA) && BytesKept(sA, fA, sB, fB)
    requires forall q :: q in s0 ==> q in sA && (sA[q] == s0[q] || sA[q] == s0[q].(frame := None))
    requires forall q :: q in sA ==> q in sB && (sB[q] == sA[q] || sB[q] == sA[q].(frame := None))
    ensures BytesKept(s0, f0, sB, fB)
  {
    forall q | q in s0 && q in sB && sB[q].frame.Some? && s0[q].frame.Some?
      ensures sB[q].frame.value < |fB| && s0[q].frame.value < |f0|
      ensures fB[sB[q].frame.value].data == f0[s0[q].frame.value].data
    {
      assert sB[q] == sA[q] && sA[q] == s0[q];
    }
  }

  /** A live parent page: the child page allocated, claimed, and filled from the parent's frame. */
  lemma ResidentRound(sA: map<PageRef, Page>, fA: seq<Frame>, s1: map<PageRef, Page>,
                      s2: map<PageRef, Page>, f2: seq<Frame>, f3: seq<Frame>,
                      src: Tid, dst: Tid, va: Va, claimed: bool, h2: bool, ok: bool, halted: bool)
    requires Linked(fA, sA) && Linked(f2, s2) && src != dst
    requires PageRef(src, va) in sA && PageRef(dst, va) !in sA && sA[PageRef(src, va)].state.Live?
    requires sA[PageRef(src, va)].va == va && PageRef(src, va) in s2
    requires s1 == sA[PageRef(dst, va) := Page(va, sA[PageRef(src, va)].writable, dst,
                                              Uninit(PageGetType(sA[PageRef(src, va)]), NoLoader), None)]
    requires Claimed(s1, fA, s2, f2, PageRef(dst, va), claimed, h2)
    requires !claimed ==> !ok && f3 == f2 && halted == h2
    requires claimed && s2[PageRef(src, va)].frame.None? ==> !ok && halted && f3 == f2
    requires claimed && s2[PageRef(src, va)].frame.Some? ==>
      && ok && !halted && s2[PageRef(src, va)].frame.value < |f2|
      && f3 == f2[s2[PageRef(dst, va)].frame.value :=
                  f2[s2[PageRef(dst, va)].frame.value].(data := f2[s2[PageRef(src, va)].frame.value].data)]
    ensures RoundOutcome(sA, fA, s2, f3, src, dst, va, ok, halted)
  {
    var parent, child := PageRef(src, va), PageRef(dst, va);
    AddThenDrop(sA, s1, s2, child);
    assert Linked(fA, s1);
    if !halted {
      SurvivorsKeepContents(fA, s1, f2, s2, child);
    }
  }

  /**
   * Fork's progress after copying the parent addresses `done`: the child (`dst`)
   * has exactly those pages, each a copy of its parent page with the same bytes
   * when both are resident, while every other thread's pages at most lost frames.
   */
  ghost predicate CopyProgress(spt0: map<PageRef, Page>, spt: map<PageRef, Page>, frames: seq<Frame>,
                               src: Tid, dst: Tid, done: set<Va>)
  {
    && (forall q :: q in spt0 ==> q.tid != dst)
    && (forall q: PageRef :: q.tid != dst ==> (q in spt <==> q in spt0))
    && (forall q :: q in spt0 ==> spt[q] == spt0[q] || spt[q] == spt0[q].(frame := None))
    && (forall va :: PageRef(dst, va) in spt <==> va in done)
    && (forall va :: va in done ==> PageRef(src, va) in spt0)
    && (forall va :: va in done ==> CopyOf(spt0[PageRef(src, va)], spt[PageRef(dst, va)], dst))
    && (forall va :: va in done && spt0[PageRef(src, va)].state.Live? ==>
          SameContents(frames, spt, PageRef(src, va), PageRef(dst, va)))
  }

  /** One successful round of the copy extends the progress by its address. */
  lemma CopyStep(spt0: map<PageRef, Page>, sA: map<PageRef, Page>, fA: seq<Frame>,
                 sB: map<PageRef, Page>, fB: seq<Frame>, src: Tid, dst: Tid, va: Va, done: set<Va>)
    requires CopyProgress(spt0, sA, fA, src, dst, done) && Linked(fA, sA) && Linked(fB, sB)
    requires PageRef(src, va) in spt0 && va !in done && src != dst
    requires RoundOutcome(sA, fA, sB, fB, src, dst, va, true, false)
    ensures CopyProgress(spt0, sB, fB, src, dst, done + {va})
  {
    forall v | v in done + {va} && spt0[PageRef(src, v)].state.Live?
      ensures SameContents(fB, sB, PageRef(src, v), PageRef(dst, v))
    {
      if v != va {
        var p, c := PageRef(src, v), PageRef(dst, v);
        assert p in sA && c in sA;
        SameContentsKept(sA, fA, sB, fB, p, c);
      }
    }
    forall v | v in done
      ensures CopyOf(spt0[PageRef(src, v)], sB[PageRef(dst, v)], dst)
    {
      var c := PageRef(dst, v);
      assert c in sA;
      CopyOfIgnoresFrame(spt0[PageRef(src, v)], sA[c], sB[c], dst);
    }
  }

  /** Two pages that kept their frames through a round that kept resident bytes still hold the same bytes. */
  lemma SameContentsKept(sA: map<PageRef, Page>, fA: seq<Frame>, sB: map<PageRef, Page>, fB: seq<Frame>,
                         a: PageRef, b: PageRef)
    requires a in sA && b in sA && a in sB && b in sB && SameContents(fA, sA, a, b)
    requires sB[a] == sA[a] || sB[a] == sA[a].(frame := None)
    requires sB[b] == sA[b] || sB[b] == sA[b].(frame := None)
    requires BytesKept(sA, fA, sB, fB)
    ensures SameContents(fB, sB, a, b)
  {
    if sB[a].frame.Some? && sB[b].frame.Some? {
      assert sB[a] == sA[a] && sB[b] == sA[b];
    }
  }

  lemma CopyOfIgnoresFrame(parent: Page, a: Page, b: Page, dst: Tid)
    requires CopyOf(parent, a, dst) && (b == a || b == a.(frame := None))
    ensures CopyOf(parent, b, dst)
  {
  }

  /** A round that failed still leaves only the parent's addresses in the child and only drops frames elsewhere. */
  lemma CopyAbort(spt0: map<PageRef, Page>, sA: map<PageRef, Page>, fA: seq<Frame>,
                  sB: map<PageRef, Page>, fB: seq<Frame>, src: Tid, dst: Tid, va: Va, done: set<Va>, halted: bool)
    requires CopyProgress(spt0, sA, fA, src, dst, done) && PageRef(src, va) in spt0
    requires RoundOutcome(sA, fA, sB, fB, src, dst, va, false, halted)
    ensures forall q: PageRef :: q.tid != dst ==> (q in sB <==> q in spt0)
    ensures forall q :: q in spt0 ==> sB[q] == spt0[q] || sB[q] == spt0[q].(frame := None)
    ensures forall v :: PageRef(dst, v) in sB ==> PageRef(src, v) in spt0
  {
  }

  /** Before the first round nothing is copied, and every resident page holds its own bytes. */
  lemma CopyStart(spt: map<PageRef, Page>, frames: seq<Frame>, src: Tid, dst: Tid)
    requires Linked(frames, spt) && forall q :: q in spt ==> q.tid != dst
    ensures CopyProgress(spt, spt, frames, src, dst, {}) && BytesKept(spt, frames, spt, frames)
  {
  }

  /** Taking `va` out of the pending addresses adds it to the done ones. */
  lemma TakeOne(all: set<Va>, pending: set<Va>, va: Va)
    requires va in pending && pending <= all
    ensures all - (pending - {va}) == (all - pending) + {va}
  {
  }

  /** Once every parent address is done, the child table is a complete copy of the parent's. */
  lemma CopyComplete(spt0: map<PageRef, Page>, spt: map<PageRef, Page>, frames: seq<Frame>,
                     src: Tid, dst: Tid, done: set<Va>)
    requires CopyProgress(spt0, spt, frames, src, dst, done)
    requires forall va :: va in done <==> PageRef(src, va) in spt0
    ensures forall q: PageRef :: q.tid != dst ==> (q in spt <==> q in spt0)
    ensures forall q :: q in spt0 ==> spt[q] == spt0[q] || spt[q] == spt0[q].(frame := None)
    ensures forall va :: PageRef(dst, va) in spt ==> PageRef(src, va) in spt0
    ensures forall va :: PageRef(src, va) in spt0 ==>
      && PageRef(dst, va) in spt
      && CopyOf(spt0[PageRef(src, va)], spt[PageRef(dst, va)], dst)
      && (spt0[PageRef(src, va)].state.Live? ==> SameContents(frames, spt, PageRef(src, va), PageRef(dst, va)))
  {
  }

  /**
   * The invariant of the VM state: the frame table fits the user pool and its
   * cursor, every frame is a page long, each table entry is keyed by its own
   * address and frames and pages link both ways, and the stack bottom is page
   * aligned.
   */
  ghost predicate TablesValid(capacity: nat, frames: seq<Frame>, cursor: nat, spt: map<PageRef, Page>,
                              stackBottom: int)
  {
    && 0 < capacity && |frames| <= capacity && cursor <= |frames|
    && (forall i :: 0 <= i < |frames| ==> |frames[i].data| == PGSIZE)
    && KeysMatch(spt) && Linked(frames, spt)
    && stackBottom % PGSIZE == 0
  }

  /** The VM state of the kernel: the global frame table and cursor, and every thread's tables. */
  class VmManager {
    /** frame_table in list order (list_push_back appends). */
    var frames: seq<Frame>
    /** recent_victim_elem as a list index; |frames| stands for the list end. */
    var cursor: nat
    /** How many frames palloc_get_page(PAL_USER) hands out before the user pool is exhausted. */
    const capacity: nat
    /** Every thread's supplemental page table. */
    var spt: map<PageRef, Page>
    /** Every thread's pml4 page table. */
    var pml4: map<PageRef, Pte>
    /** thread_current() */
    var cur: Tid
    /** thread_current()->user_stack_bottom */
    var stackBottom: int
    /** Set by PANIC or a failed ASSERT: the kernel has stopped. */
    var halted: bool

    ghost predicate Valid()
      reads this`frames, this`cursor, this`spt, this`stackBottom
    {
      TablesValid(capacity, frames, cursor, spt, stackBottom)
    }

    function Hot(): (hot: seq<bool>)
      reads this
      ensures |hot| == |frames|
    {
      HotBits(frames, pml4)
    }

    /** vm_init: an empty frame table with the cursor at its head. */
    constructor (capacity: nat, cur: Tid)
      requires 0 < capacity
      ensures Valid() && !halted
      ensures frames == [] && cursor == 0 && spt == map[] && pml4 == map[]
      ensures this.capacity == capacity && this.cur == cur && stackBottom == 0
    {
      frames := [];
      cursor := 0;
      this.capacity := capacity;
      spt := map[];
      pml4 := map[];
      this.cur := cur;
      stackBottom := 0;
      halted := false;
    }

    /** spt_insert_page: add `p` to thread `t`'s table unless its address is taken. */
    method SptInsertPage(t: Tid, p: Page) returns (ok: bool)
      requires Valid() && !halted
      requires p.owner == t && p.va % PGSIZE == 0 && p.frame.None?
      modifies this`spt
      ensures Valid()
      ensures ok <==> PageRef(t, p.va) !in old(spt)
      ensures spt == if ok then old(spt)[PageRef(t, p.va) := p] else old(spt)
    {
      var key := PageRef(t, p.va);
      if key !in spt {
        spt := spt[key := p];
        ok := true;
      } else {
        ok := false;
      }
    }

    /**
     * spt_remove_page: unmap the address in the current thread's pml4, drop the
     * page from `t`'s table and free its frame (vm_dealloc_page then releases the page).
     */
    method SptRemovePage(t: Tid, va: Va)
      requires Valid() && !halted && PageRef(t, va) in spt
      modifies this`spt, this`pml4, this`frames
      ensures Valid()
      ensures spt == old(spt) - {PageRef(t, va)}
      ensures SptFind(spt, t, va).None?
      ensures pml4 == old(pml4) - {PageRef(cur, va)}
      ensures frames == match old(spt)[PageRef(t, va)].frame
                        case Some(f) => old(frames)[f := old(frames)[f].(page := None)]
                        case None => old(frames)
    {
      var key := PageRef(t, va);
      var p := spt[key];
      pml4 := pml4 - {PageRef(cur, va)};
      spt := spt - {key};
      if p.frame.Some? {
        frames := frames[p.frame.value := frames[p.frame.value].(page := None)];
      }
    }

    /** The frame `c` is not among the frames `idx`, so its page is not among theirs. */
    lemma PageNotSeen(idx: set<nat>, c: nat)
      requires Valid() && c < |frames| && frames[c].page.Some? && c !in idx
      ensures frames[c].page.value !in PagesOf(frames, idx)
    {
      if frames[c].page.value in PagesOf(frames, idx) {
        var i :| i in idx && i < |frames| && frames[i].page.Some? && frames[i].page.value == frames[c].page.value;
        LinkedIsOneToOne(frames, spt, i, c, frames[c].page.value, frames[c].page.value);
      }
    }

    /**
     * One stretch of the clock scan: walk the cursor from `lo` towards `hi`,
     * clearing the accessed bit of each hot frame, and stop at the first cold one.
     */
    method ScanStretch(lo: nat, hi: nat, ghost pml40: map<PageRef, Pte>, ghost seen0: set<nat>)
      returns (found: bool, ghost seen: set<nat>)
      requires Valid() && lo <= hi <= |frames|
      requires pml4 == ClearAccessed(pml40, PagesOf(frames, seen0))
      requires forall k :: k in seen0 ==> k < lo || hi <= k
      modifies this`cursor, this`pml4
      ensures Valid() && lo <= cursor <= hi
      ensures found ==> Clock.FirstCold(HotBits(frames, pml40), lo, hi) == Some(cursor)
      ensures !found ==> Clock.FirstCold(HotBits(frames, pml40), lo, hi).None? && cursor == hi
      ensures forall k :: k in seen <==> k in seen0 || lo <= k < cursor
      ensures pml4 == ClearAccessed(pml40, PagesOf(frames, seen))
    {
      ghost var hot := HotBits(frames, pml40);
      seen := seen0;
      var c := lo;
      while c < hi
        invariant Valid() && lo <= c <= hi
        invariant forall k :: lo <= k < c ==> hot[k]
        invariant forall k :: k in seen <==> k in seen0 || lo <= k < c
        invariant pml4 == ClearAccessed(pml40, PagesOf(frames, seen))
        decreases hi - c
      {
        if frames[c].page.None? {
          Clock.FirstColdAt(hot, lo, hi, c);
          cursor := c;
          return true, seen;
        }
        var r := frames[c].page.value;
        PageNotSeen(seen, c);
        assert hot[c] == IsAccessed(pml4, r);
        if IsAccessed(pml4, r) {
          ClearOneMore(pml40, PagesOf(frames, seen), r);
          PagesOfOneMore(frames, seen, c);
          pml4 := pml4[r := pml4[r].(accessed := false)];
          seen := seen + {c};
          c := c + 1;
        } else {
          Clock.FirstColdAt(hot, lo, hi, c);
          cursor := c;
          return true, seen;
        }
      }
      cursor := c;
      found := false;
    }

    /**
     * vm_get_victim: scan from the cursor to the end of the frame table, then
     * from its head up to where the scan began; every hot frame passed over
     * loses its accessed bit. With no cold frame anywhere, the head is chosen.
     */
    method GetVictim() returns (v: nat)
      requires Valid() && !halted && 0 < |frames|
      modifies this`cursor, this`pml4
      ensures Valid()
      ensures v == Clock.Victim(old(Hot()), old(cursor)) && cursor == v
      ensures pml4 == AfterScan(frames, old(pml4), old(cursor))
    {
      ghost var hot := Hot();
      ghost var pml40 := pml4;
      var start := cursor;
      assert ClearAccessed(pml40, PagesOf(frames, {})) == pml40;
      var found;
      ghost var seen;
      found, seen := ScanStretch(start, |frames|, pml40, {});
      if found {
        v := cursor;
        PassedSetIs(hot, start, seen);
        return;
      }
      v := WrapScan(start, pml40, seen);
    }

    /**
     * The second half of vm_get_victim, after the scan found no cold frame
     * from `start` to the end: scan from the head up to `start`, and fall
     * back to the head when every frame was hot.
     */
    method WrapScan(start: nat, ghost pml40: map<PageRef, Pte>, ghost seen0: set<nat>) returns (v: nat)
      requires Valid() && 0 < |frames| && start <= |frames|
      requires Clock.FirstCold(HotBits(frames, pml40), start, |frames|).None?
      requires pml4 == ClearAccessed(pml40, PagesOf(frames, seen0))
      requires forall k :: k in seen0 <==> start <= k < |frames|
      modifies this`cursor, this`pml4
      ensures Valid()
      ensures v == Clock.Victim(HotBits(frames, pml40), start) && cursor == v
      ensures pml4 == AfterScan(frames, pml40, start)
    {
      ghost var hot := HotBits(frames, pml40);
      var found;
      ghost var seen;
      found, seen := ScanStretch(0, start, pml40, seen0);
      PassedSetIs(hot, start, seen);
      if found {
        v := cursor;
        return;
      }
      cursor := 0;
      v := 0;
    }

    /**
     * vm_evict_frame: pick the clock victim; if it holds a page, swap that page
     * out, which unmaps it from its owner's page table. A failed swap-out panics.
     * The swap backends are not part of this model: whether swap-out succeeds is
     * left open.
     */
    method EvictFrame() returns (v: nat)
      requires Valid() && !halted && 0 < |frames|
      modifies this`cursor, this`pml4, this`halted
      ensures Valid()
      ensures v == Clock.Victim(old(Hot()), old(cursor)) && cursor == v
      ensures halted ==> frames[v].page.Some? && pml4 == AfterScan(frames, old(pml4), old(cursor))
      ensures !halted && frames[v].page.None? ==> pml4 == AfterScan(frames, old(pml4), old(cursor))
      ensures !halted && frames[v].page.Some? ==>
        pml4 == AfterScan(frames, old(pml4), old(cursor)) - {frames[v].page.value}
    {
      v := GetVictim();
      if frames[v].page.Some? {
        var swapped: bool := *;
        if swapped {
          pml4 := pml4 - {frames[v].page.value};
        } else {
          halted := true;  // PANIC ("Swap out failed.")
        }
      }
    }

    /**
     * vm_get_frame: a fresh frame appended to the frame table while the user pool
     * has pages left, otherwise the evicted victim with its page link cut. Either
     * way the frame returned holds no page. A failed malloc of the frame record panics.
     */
    method GetFrame() returns (f: nat)
      requires Valid() && !halted
      modifies this`frames, this`cursor, this`pml4, this`halted, this`spt
      ensures Valid()
      ensures halted ==> spt == old(spt) && frames == old(frames)
      ensures !halted ==> f < |frames| && frames[f].page.None?
      ensures FramesDropped(old(spt), spt) && OnlyCleared(old(pml4), pml4) && |frames| >= old(|frames|)
      ensures forall i :: 0 <= i < old(|frames|) && i != f ==> frames[i] == old(frames)[i]
      ensures old(|frames|) < capacity ==>
        && spt == old(spt) && pml4 == old(pml4) && cursor == old(cursor)
        && (!halted ==> f == old(|frames|) && frames[..f] == old(frames))
      ensures old(|frames|) == capacity ==>
        && |frames| == old(|frames|)
        && f == Clock.Victim(old(Hot()), old(cursor)) && cursor == f
        && (!halted ==> frames == old(frames)[f := old(frames)[f].(page := None)])
        && (old(frames)[f].page.None? ==>
              !halted && spt == old(spt) && pml4 == AfterScan(old(frames), old(pml4), old(cursor)))
        && (old(frames)[f].page.Some? && !halted ==>
              var r := old(frames)[f].page.value;
              r in old(spt) && spt == old(spt)[r := old(spt)[r].(frame := None)] &&
              pml4 == AfterScan(old(frames), old(pml4), old(cursor)) - {r})
    {
      if |frames| == capacity {
        f := EvictFrame();
        ScanOnlyClears(old(frames), old(pml4), old(cursor));
        if halted {
          return;
        }
        if frames[f].page.Some? {
          Unlink(f);
        }
      } else {
        var recorded: bool := *;
        if !recorded {
          f := 0;
          halted := true;  // PANIC ("todo: handle case when malloc fails.")
          return;
        }
        assert |Zeros(PGSIZE)| == PGSIZE;
        var data: seq<Byte> :| |data| == PGSIZE;  // palloc_get_page does not clear the page
        f := |frames|;
        frames := frames + [Frame(None, data)];
      }
    }

    /** Cut the link between frame `f` and the page it holds. */
    method Unlink(f: nat)
      requires Valid() && f < |frames| && frames[f].page.Some?
      modifies this`spt, this`frames
      ensures Valid()
      ensures var r := old(frames)[f].page.value;
        r in old(spt) && spt == old(spt)[r := old(spt)[r].(frame := None)]
      ensures frames == old(frames)[f := old(frames)[f].(page := None)]
      ensures FramesDropped(old(spt), spt)
    {
      var r := frames[f].page.value;
      UnlinkKeepsLinks(frames, spt, f);
      KeysMatchKeepsIdentity(spt, r, spt[r].(frame := None));
      spt := spt[r := spt[r].(frame := None)];
      frames := frames[f := frames[f].(page := None)];
    }

    /**
     * What claiming page `r` leaves behind. Other pages at most lose their frame
     * to eviction, and the page table only loses mappings and accessed bits.
     * Unless the kernel stopped, `r` now holds a frame (fresh while the pool has
     * pages, the clock victim otherwise) and no other frame changed. On success
     * `r` is mapped writable as the page is, marked accessed, and initialised.
     */
    twostate predicate ClaimOutcome(r: PageRef, ok: bool)
      requires old(Valid())
      reads this
    {
      && (ok ==> !halted)
      && Claimed(old(spt), old(frames), spt, frames, r, ok, halted)
      && OnlyCleared(old(pml4), pml4 - {r})
      && (!halted ==>
            && (old(|frames|) < capacity ==> spt[r].frame.value == old(|frames|))
            && (old(|frames|) == capacity ==> spt[r].frame.value == Clock.Victim(old(Hot()), old(cursor)))
            && (ok ==> r in pml4 && pml4[r] == Pte(spt[r].frame.value, old(spt)[r].writable, true)))
    }

    /**
     * vm_do_claim_page: get a frame, link it with the page, map the page in its
     * owner's page table and swap its contents in. Finding the page already
     * mapped fails an ASSERT. pml4_set_page (which fails when no page-table page
     * can be allocated) and swap_in are not part of this model: their success is
     * left open, and swap_in's bytes are any page-sized contents.
     */
    method DoClaimPage(r: PageRef) returns (ok: bool)
      requires Valid() && !halted && r in spt && spt[r].frame.None?
      modifies this`frames, this`cursor, this`pml4, this`halted, this`spt
      ensures Valid() && ClaimOutcome(r, ok)
    {
      ghost var spt0, pml40 := spt, pml4;
      var f := GetFrame();
      FramesDroppedMinus(spt0, spt, r);
      OnlyClearedMinus(pml40, pml4, r);
      if halted {
        return false;
      }
      ok := Attach(r, f);
    }

    /** The second half of vm_do_claim_page: link page and frame, map the page, swap it in. */
    method Attach(r: PageRef, f: nat) returns (ok: bool)
      requires Valid() && !halted && r in spt && spt[r].frame.None?
      requires f < |frames| && frames[f].page.None?
      modifies this`frames, this`pml4, this`halted, this`spt
      ensures Valid()
      ensures |frames| == old(|frames|) && frames[f].page == Some(r)
      ensures forall i :: 0 <= i < |frames| && i != f ==> frames[i] == old(frames)[i]
      ensures spt == old(spt)[r := old(spt)[r].(frame := Some(f),
                                               state := if ok then Initialized(old(spt)[r].state) else old(spt)[r].state)]
      ensures pml4 - {r} == old(pml4) - {r}
      ensures ok ==> !halted && r in pml4 && pml4[r] == Pte(f, old(spt)[r].writable, true)
    {
      LinkFrame(r, f);
      if r in pml4 {
        halted := true;  // ASSERT (pml4_get_page (t->pml4, page->va) == NULL)
        return false;
      }
      var mapped: bool := *;
      if !mapped {
        return false;
      }
      pml4 := pml4[r := Pte(f, spt[r].writable, true)];
      ok := *;
      if ok {
        SwapIn(r, f);
      }
    }

    /** Set the links: frame->page = page, page->frame = frame. */
    method LinkFrame(r: PageRef, f: nat)
      requires Valid() && r in spt && spt[r].frame.None?
      requires f < |frames| && frames[f].page.None?
      modifies this`frames, this`spt
      ensures Valid()
      ensures frames == old(frames)[f := old(frames)[f].(page := Some(r))]
      ensures spt == old(spt)[r := old(spt)[r].(frame := Some(f))]
    {
      LinkOne(frames, spt, r, f);
      KeysMatchKeepsIdentity(spt, r, spt[r].(frame := Some(f)));
      frames := frames[f := frames[f].(page := Some(r))];
      spt := spt[r := spt[r].(frame := Some(f))];
    }

    /**
     * A successful swap_in: the page's bytes arrive in its frame (any page-sized
     * contents; the backends are not part of this model) and an uninitialised
     * page becomes live as its pending type.
     */
    method SwapIn(r: PageRef, f: nat)
      requires Valid() && r in spt && spt[r].frame == Some(f) && f < |frames|
      modifies this`frames, this`spt
      ensures Valid()
      ensures |frames| == old(|frames|) && frames[f].page == old(frames)[f].page
      ensures forall i :: 0 <= i < |frames| && i != f ==> frames[i] == old(frames)[i]
      ensures spt == old(spt)[r := old(spt)[r].(state := Initialized(old(spt)[r].state))]
    {
      assert |Zeros(PGSIZE)| == PGSIZE;
      var content: seq<Byte> :| |content| == PGSIZE;
      LinkedIgnoresContents(frames, spt, f, content, r, Initialized(spt[r].state));
      KeysMatchKeepsIdentity(spt, r, spt[r].(state := Initialized(spt[r].state)));
      frames := frames[f := frames[f].(data := content)];
      spt := spt[r := spt[r].(state := Initialized(spt[r].state))];
    }

    /** vm_claim_page: claim the current thread's page at `va`, failing when there is none. */
    method ClaimPage(va: Va) returns (ok: bool)
      requires Valid() && !halted
      requires SptFind(spt, cur, va).Some? ==> SptFind(spt, cur, va).value.frame.None?
      modifies this`frames, this`cursor, this`pml4, this`halted, this`spt
      ensures Valid()
      ensures old(SptFind(spt, cur, va)).None? ==>
        !ok && !halted && spt == old(spt) && frames == old(frames) && pml4 == old(pml4) && cursor == old(cursor)
      ensures old(SptFind(spt, cur, va)).Some? ==> ClaimOutcome(PageRef(cur, PgRoundDown(va)), ok)
    {
      var page := SptFind(spt, cur, va);
      if page.None? {
        return false;
      }
      ok := DoClaimPage(PageRef(cur, PgRoundDown(va)));
    }

    /**
     * vm_alloc_page_with_initializer: create an uninitialised page of type `ty`
     * at `upage` in the current thread's table, carrying its loader, unless the
     * address is already taken. The insertion itself cannot then fail.
     */
    method AllocPageWithInitializer(ty: VmType, upage: Va, writable: bool, loader: Loader) returns (ok: bool)
      requires Valid() && !halted && upage % PGSIZE == 0
      modifies this`spt
      ensures Valid()
      ensures ok <==> old(SptFind(spt, cur, upage)).None?
      ensures spt == if ok then old(spt)[PageRef(cur, upage) := Page(upage, writable, cur, Uninit(ty, loader), None)]
                     else old(spt)
    {
      if SptFind(spt, cur, upage).None? {
        var page := Page(upage, writable, cur, Uninit(ty, loader), None);
        ok := SptInsertPage(cur, page);
        assert ok;  // ASSERT (success == true)
      } else {
        ok := false;
      }
    }

    /** vm_stack_growth: add an anonymous writable page at `addr`; on success the stack bottom drops a page. */
    method StackGrowth(addr: Va) returns (ok: bool)
      requires Valid() && !halted && addr % PGSIZE == 0
      modifies this`spt, this`stackBottom
      ensures Valid()
      ensures ok <==> old(SptFind(spt, cur, addr)).None?
      ensures spt == if ok then old(spt)[PageRef(cur, addr) := Page(addr, true, cur, Uninit(Anon, NoLoader), None)]
                     else old(spt)
      ensures stackBottom == if ok then old(stackBottom) - PGSIZE else old(stackBottom)
    {
      ok := AllocPageWithInitializer(Anon, addr, true, NoLoader);
      if ok {
        stackBottom := stackBottom - PGSIZE;
      }
    }

    /**
     * The stack-growth path of the fault handler: grow by a page at the stack
     * bottom, whatever the faulting address, and claim that page. Growth fails,
     * changing nothing, when the thread already has a page there. Otherwise the
     * new writable anonymous page is claimed as ClaimOutcome describes: it gets
     * a fresh frame while the pool lasts and the clock victim after, no other
     * frame changes, and on success it is mapped to that frame.
     */
    twostate predicate GrowOutcome(ok: bool)
      requires old(Valid())
      reads this
    {
      var r := PageRef(cur, old(stackBottom) - PGSIZE);
      if r in old(spt) then
        && !ok && !halted && spt == old(spt) && frames == old(frames) && pml4 == old(pml4)
        && cursor == old(cursor) && stackBottom == old(stackBottom)
      else
        && stackBottom == old(stackBottom) - PGSIZE
        && Claimed(old(spt)[r := Page(r.va, true, cur, Uninit(Anon, NoLoader), None)], old(frames), spt, frames,
                   r, ok, halted)
        && OnlyCleared(old(pml4), pml4 - {r})
        && (!halted ==>
              && (old(|frames|) < capacity ==> spt[r].frame.value == old(|frames|))
              && (old(|frames|) == capacity ==> spt[r].frame.value == Clock.Victim(old(Hot()), old(cursor)))
              && (ok ==> r in pml4 && pml4[r] == Pte(spt[r].frame.value, true, true)))
    }

    /** vm_stack_growth at the stack bottom followed by vm_do_claim_page of the new page. */
    method GrowAndClaim() returns (ok: bool)
      requires Valid() && !halted
      modifies this`frames, this`cursor, this`pml4, this`halted, this`spt, this`stackBottom
      ensures Valid() && GrowOutcome(ok)
    {
      var fpage := stackBottom - PGSIZE;
      var grown := StackGrowth(fpage);
      if !grown {
        return false;
      }
      var page := SptFind(spt, cur, fpage);
      assert page.Some?;  // ASSERT (page != NULL)
      ghost var spt1 := spt;
      ok := DoClaimPage(PageRef(cur, fpage));
      FramesDroppedMinus(old(spt), spt1 - {PageRef(cur, fpage)}, PageRef(cur, fpage));
    }

    /**
     * vm_try_handle_fault: reject kernel addresses and protection faults; claim
     * the page the current thread has at the address; otherwise, when the address
     * is within 1 MiB below USER_STACK and at most 8 bytes under the stack
     * pointer, grow the stack by one page at its bottom and claim that page.
     * A not-present fault is never taken on a page that holds a frame.
     */
    method TryHandleFault(addr: Va, user: bool, write: bool, notPresent: bool, frameRsp: int, userRsp: int)
      returns (ok: bool)
      requires Valid() && !halted
      requires 0 <= frameRsp < U64 && 0 <= userRsp < U64
      requires notPresent && !IsKernelVaddr(addr) && SptFind(spt, cur, addr).Some? ==>
        SptFind(spt, cur, addr).value.frame.None?
      modifies this`frames, this`cursor, this`pml4, this`halted, this`spt, this`stackBottom
      ensures Valid()
      ensures old(ClassifyFault(spt, cur, stackBottom, addr, user, notPresent, frameRsp, userRsp)) == Reject ==>
        && !ok && !halted && spt == old(spt) && frames == old(frames) && pml4 == old(pml4)
        && cursor == old(cursor) && stackBottom == old(stackBottom)
      ensures old(ClassifyFault(spt, cur, stackBottom, addr, user, notPresent, frameRsp, userRsp)).ClaimExisting? ==>
        stackBottom == old(stackBottom) && ClaimOutcome(PageRef(cur, PgRoundDown(addr)), ok)
      ensures old(ClassifyFault(spt, cur, stackBottom, addr, user, notPresent, frameRsp, userRsp)).GrowStack? ==>
        GrowOutcome(ok)
    {
      if IsKernelVaddr(addr) {
        return false;
      }
      if !notPresent {
        return false;
      }
      var page := SptFind(spt, cur, addr);
      if page.None? {
        var rsp := if user then frameRsp else userRsp;
        if addr >= STACK_LIMIT && USER_STACK > addr && addr >= GrowthFloor(rsp) {
          ok := GrowAndClaim();
        } else {
          return false;
        }
      } else {
        ok := DoClaimPage(PageRef(cur, page.value.va));
      }
    }

    /**
     * pml4_create installed as the current thread's page table: the thread
     * starts with no mapping, and other threads' tables are untouched.
     */
    method FreshPml4()
      requires Valid()
      modifies this`pml4
      ensures Valid()
      ensures forall r :: r in pml4 <==> r in old(pml4) && r.tid != cur
      ensures forall r :: r in pml4 ==> pml4[r] == old(pml4)[r]
    {
      pml4 := map r | r in pml4 && r.tid != cur :: pml4[r];
    }

    /**
     * supplemental_page_table_kill: destroy every page of thread `t`'s table;
     * each frame holding one of them is released back to the frame table.
     */
    method SptKill(t: Tid)
      requires Valid() && !halted
      modifies this`spt, this`frames
      ensures Valid()
      ensures forall r :: r in spt <==> r in old(spt) && r.tid != t
      ensures forall r :: r in spt ==> spt[r] == old(spt)[r]
      ensures |frames| == old(|frames|)
      ensures forall i :: 0 <= i < |frames| ==>
        frames[i] == if old(frames)[i].page.Some? && old(frames)[i].page.value.tid == t
                     then old(frames)[i].(page := None) else old(frames)[i]
    {
      var fs := frames;
      var released := seq(|fs|, i requires 0 <= i < |fs| =>
        if fs[i].page.Some? && fs[i].page.value.tid == t then fs[i].(page := None) else fs[i]);
      var kept := map r | r in spt && r.tid != t :: spt[r];
      KillKeepsLinks(fs, spt, released, kept, t);
      frames, spt := released, kept;
    }

    /**
     * One round of supplemental_page_table_copy: give the current (child) thread
     * its copy of the parent's page at `va`. An uninitialised parent page is
     * re-created with the same pending type and loader; a live one is allocated,
     * claimed and filled with the parent frame's bytes. When the parent page has
     * no frame at the memcpy, because it was swapped out before this round or
     * the claim evicted it, the copy reads through a null frame pointer.
     */
    method CopyOne(src: Tid, va: Va) returns (ok: bool)
      requires Valid() && !halted && src != cur
      requires PageRef(src, va) in spt && PageRef(cur, va) !in spt
      modifies this`frames, this`cursor, this`pml4, this`halted, this`spt
      ensures Valid()
      ensures ok ==> !halted
      ensures RoundOutcome(old(spt), old(frames), spt, frames, src, cur, va, ok, halted)
    {
      var parent := spt[PageRef(src, va)];
      var ty := PageGetType(parent);
      if parent.state.Uninit? {
        ok := AllocPageWithInitializer(ty, va, parent.writable, parent.state.loader);
        assert ok;  // the child has no page at va yet
      } else {
        ok := CopyResident(src, va, ty);
      }
    }

    /**
     * The resident case of one copy round: register the child page, claim it
     * into a frame, and copy the parent frame's bytes into it.
     */
    method CopyResident(src: Tid, va: Va, ty: VmType) returns (ok: bool)
      requires Valid() && !halted && src != cur
      requires PageRef(src, va) in spt && PageRef(cur, va) !in spt
      requires !spt[PageRef(src, va)].state.Uninit? && ty == PageGetType(spt[PageRef(src, va)])
      modifies this`frames, this`cursor, this`pml4, this`halted, this`spt
      ensures Valid()
      ensures ok ==> !halted
      ensures RoundOutcome(old(spt), old(frames), spt, frames, src, cur, va, ok, halted)
    {
      var parent := spt[PageRef(src, va)];
      var child := PageRef(cur, va);
      var added := AllocPageWithInitializer(ty, va, parent.writable, NoLoader);
      assert added;
      ghost var spt1 := spt;
      assert PgRoundDown(va) == va;
      var claimed := ClaimPage(va);
      AddThenDrop(old(spt), spt1, spt, child);
      ghost var spt2, frames2, halted2 := spt, frames, halted;
      ok := claimed;
      if claimed {
        var pf := spt[PageRef(src, va)].frame;
        if pf.None? {
          halted := true;  // memcpy through the parent's null frame
          ok := false;
        } else {
          CopyFrameData(pf.value, spt[child].frame.value);
        }
      }
      ResidentRound(old(spt), old(frames), spt1, spt2, frames2, frames, src, cur, va, claimed, halted2, ok, halted);
    }

    /** memcpy of one frame's bytes over another's. */
    method CopyFrameData(from: nat, to: nat)
      requires Valid() && from < |frames| && to < |frames|
      modifies this`frames
      ensures Valid()
      ensures frames == old(frames)[to := old(frames)[to].(data := old(frames)[from].data)]
    {
      LinkedIgnoresData(frames, spt, to, frames[from].data);
      frames := frames[to := frames[to].(data := frames[from].data)];
    }

    /** One round of the copy loop: copy the page at `va`, extending the progress, or stop with the table as it is. */
    method CopyRound(src: Tid, va: Va, ghost spt0: map<PageRef, Page>, ghost frames0: seq<Frame>, ghost done: set<Va>)
      returns (ok: bool)
      requires Valid() && !halted && src != cur
      requires CopyProgress(spt0, spt, frames, src, cur, done) && PageRef(src, va) in spt0 && va !in done
      requires BytesKept(spt0, frames0, spt, frames)
      modifies this`frames, this`cursor, this`pml4, this`halted, this`spt
      ensures Valid()
      ensures !halted ==> BytesKept(spt0, frames0, spt, frames)
      ensures ok ==> !halted && CopyProgress(spt0, spt, frames, src, cur, done + {va})
      ensures !ok ==> forall q: PageRef :: q.tid != cur ==> (q in spt <==> q in spt0)
      ensures !ok ==> forall q :: q in spt0 ==> spt[q] == spt0[q] || spt[q] == spt0[q].(frame := None)
      ensures !ok ==> forall v :: PageRef(cur, v) in spt ==> PageRef(src, v) in spt0
    {
      ghost var sA, fA := spt, frames;
      ok := CopyOne(src, va);
      if !halted {
        BytesKeptTrans(spt0, frames0, sA, fA, spt, frames);
      }
      if !ok {
        CopyAbort(spt0, sA, fA, spt, frames, src, cur, va, done, halted);
        return;
      }
      CopyStep(spt0, sA, fA, spt, frames, src, cur, va, done);
    }

    /**
     * supplemental_page_table_copy, called by the child during fork: copy every
     * page of thread `src`'s table into the current thread's freshly initialised
     * (empty) table, stopping at the first failure. Hash iteration order is
     * unspecified, so the pages are taken in any order.
     */
    method SptCopy(src: Tid) returns (ok: bool)
      requires Valid() && !halted && src != cur
      requires forall q :: q in spt ==> q.tid != cur
      modifies this`frames, this`cursor, this`pml4, this`halted, this`spt
      ensures Valid()
      ensures ok ==> !halted
      ensures forall q: PageRef :: q.tid != cur ==> (q in spt <==> q in old(spt))
      ensures forall q :: q in old(spt) ==> spt[q] == old(spt)[q] || spt[q] == old(spt)[q].(frame := None)
      ensures forall va :: PageRef(cur, va) in spt ==> PageRef(src, va) in old(spt)
      ensures ok ==> forall va :: PageRef(src, va) in old(spt) ==>
        && PageRef(cur, va) in spt
        && CopyOf(old(spt)[PageRef(src, va)], spt[PageRef(cur, va)], cur)
        && (old(spt)[PageRef(src, va)].state.Live? ==> SameContents(frames, spt, PageRef(src, va), PageRef(cur, va)))
      ensures !halted ==> BytesKept(old(spt), old(frames), spt, frames)
    {
      var pending := set q | q in spt && q.tid == src :: q.va;
      ghost var all := pending;
      ghost var spt0, frames0 := spt, frames;
      ghost var done: set<Va> := {};
      CopyStart(spt, frames, src, cur);
      ok := true;
      while pending != {}
        invariant Valid() && !halted && pending <= all && done == all - pending
        invariant forall va :: va in all <==> PageRef(src, va) in spt0
        invariant CopyProgress(spt0, spt, frames, src, cur, done)
        invariant BytesKept(spt0, frames0, spt, frames)
        decreases pending
      {
        var va :| va in pending;
        ok := CopyRound(src, va, spt0, frames0, done);
        if !ok {
          return;
        }
        TakeOne(all, pending, va);
        done := done + {va};
        pending := pending - {va};
      }
      CopyComplete(spt0, spt, frames, src, cur, all);
    }
  }
}
