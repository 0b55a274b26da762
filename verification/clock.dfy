/**
 * The second-chance (clock) victim choice of vm_get_victim, stated over the
 * "hot" bit of each frame of the frame table: a frame is hot when it holds a
 * page whose accessed bit is set. Cold frames (free, or holding a page that
 * was not accessed) stop the scan.
 */
module Clock {
  import opened Wrappers

  /** The first cold frame in [lo, hi), scanning upward. */
  function FirstCold(hot: seq<bool>, lo: nat, hi: nat): (r: Option<nat>)
    requires lo <= hi <= |hot|
    ensures r.Some? ==> lo <= r.value < hi && !hot[r.value]
    ensures r.Some? ==> forall k :: lo <= k < r.value ==> hot[k]
    ensures r.None? ==> forall k :: lo <= k < hi ==> hot[k]
    decreases hi - lo
  {
    if lo == hi then None
    else if !hot[lo] then Some(lo)
    else FirstCold(hot, lo + 1, hi)
  }

  /** The frame chosen by a scan that starts at `start` (|hot| stands for the list end). */
  function Victim(hot: seq<bool>, start: nat): (v: nat)
    requires 0 < |hot| && start <= |hot|
    ensures v < |hot|
  {
    match FirstCold(hot, start, |hot|)
    case Some(k) => k
    case None =>
      match FirstCold(hot, 0, start)
      case Some(k) => k
      case None => 0
  }

  /** Whether the scan from `start` passes over frame `i`, clearing its accessed bit. */
  predicate PassedOver(hot: seq<bool>, start: nat, i: nat)
    requires start <= |hot|
  {
    match FirstCold(hot, start, |hot|)
    case Some(k) => start <= i < k
    case None =>
      (start <= i < |hot|) ||
      (match FirstCold(hot, 0, start)
       case Some(k) => i < k
       case None => i < start)
  }

  /** The hot bits after the scan: every frame passed over has its bit cleared. */
  function Swept(hot: seq<bool>, start: nat): (r: seq<bool>)
    requires start <= |hot|
    ensures |r| == |hot|
  {
    seq(|hot|, i requires 0 <= i < |hot| => hot[i] && !PassedOver(hot, start, i))
  }

  /** Position of frame `i` in the scan order start, start+1, ..., n-1, 0, ..., start-1. */
  function ScanPos(n: nat, start: nat, i: nat): nat
    requires start <= n && i < n
  {
    if i >= start then i - start else n - start + i
  }

  /** FirstCold is pinned down by the cold index it finds. */
  lemma {:induction false} FirstColdAt(hot: seq<bool>, lo: nat, hi: nat, k: nat)
    requires lo <= k < hi <= |hot|
    requires !hot[k] && forall j :: lo <= j < k ==> hot[j]
    ensures FirstCold(hot, lo, hi) == Some(k)
    decreases k - lo
  {
    if lo < k {
      FirstColdAt(hot, lo + 1, hi, k);
    }
  }

  /**
   * When some frame is cold, the victim is the first cold frame in scan order,
   * and the frames passed over are exactly those scanned before it, all hot.
   */
  lemma VictimIsFirstCold(hot: seq<bool>, start: nat, c: nat)
    requires start <= |hot| && c < |hot| && !hot[c]
    ensures !hot[Victim(hot, start)]
    ensures forall i :: 0 <= i < |hot| ==>
      (PassedOver(hot, start, i) <==> ScanPos(|hot|, start, i) < ScanPos(|hot|, start, Victim(hot, start)))
    ensures forall i :: 0 <= i < |hot| && ScanPos(|hot|, start, i) < ScanPos(|hot|, start, Victim(hot, start)) ==> hot[i]
  {
    if FirstCold(hot, start, |hot|).None? {
      assert c < start;
      assert FirstCold(hot, 0, start).Some?;
    }
  }

  /** With every frame hot, the head of the list is chosen and every bit ends cleared. */
  lemma VictimFallback(hot: seq<bool>, start: nat)
    requires 0 < |hot| && start <= |hot|
    requires forall i :: 0 <= i < |hot| ==> hot[i]
    ensures Victim(hot, start) == 0
    ensures forall i :: 0 <= i < |hot| ==> PassedOver(hot, start, i) && !Swept(hot, start)[i]
  {
    assert FirstCold(hot, start, |hot|).None?;
    assert FirstCold(hot, 0, start).None?;
  }

  /** The scan only clears bits: it never sets one, and it clears only bits that were set. */
  lemma SweepOnlyClears(hot: seq<bool>, start: nat, i: nat)
    requires start <= |hot| && i < |hot|
    ensures Swept(hot, start)[i] ==> hot[i]
    ensures PassedOver(hot, start, i) ==> hot[i] && !Swept(hot, start)[i]
  {
    match FirstCold(hot, start, |hot|)
    case Some(k) =>
    case None =>
  }

  /**
   * Second chance is bounded: after a scan that found no cold frame every bit is
   * clear, so the next scan stops at its first frame, whatever cursor it starts from.
   */
  lemma {:induction false} NextScanAfterFallback(hot: seq<bool>, start: nat, next: nat)
    requires 0 < |hot| && start <= |hot| && next <= |hot|
    requires forall i :: 0 <= i < |hot| ==> hot[i]
    ensures Victim(Swept(hot, start), next) == (if next < |hot| then next else 0)
  {
    VictimFallback(hot, start);
    var s := Swept(hot, start);
    if next < |hot| {
      FirstColdAt(s, next, |s|, next);
    } else {
      FirstColdAt(s, 0, next, 0);
    }
  }
}
