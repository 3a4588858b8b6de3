/** The timeline that all cameras share, and the files and rungs that one of them sends. */
module CaptureTimeline {
  import opened Common
  import opened AnnexBIndex

  // ----- the shared timeline -----

  /** The remainder of C: truncated towards zero. */
  function CRem(a: int, n: int): int
    requires n > 0
  {
    if a >= 0 then a % n else -(-a % n)
  }

  /** The source's way to wrap an index of either sign. */
  function Wrap(a: int, n: int): int
    requires n > 0
  {
    CRem(CRem(a, n) + n, n)
  }

  lemma WrapIsMod(a: int, n: int)
    requires n > 0
    ensures Wrap(a, n) == a % n && 0 <= a % n < n
  {
    if a >= 0 {
      RemainderIs(a % n + n, n, 1, a % n);
    } else {
      var q, m := -a / n, -a % n;
      if m == 0 {
        RemainderIs(a, n, -q, 0);
        RemainderIs(n, n, 1, 0);
      } else {
        assert a == (-q - 1) * n + (n - m);
        RemainderIs(a, n, -q - 1, n - m);
        RemainderIs(n - m, n, 0, n - m);
      }
    }
  }

  /** The content frame that is sent in a slot. */
  function SrcOf(n: int, phase: int, slot: int): int
    requires n > 0
  {
    Wrap(slot + phase, n)
  }

  /** Where that frame is in a file that starts at content frame `origin`. */
  function FileIdx(n: int, phase: int, origin: int, slot: int): (i: int)
    requires n > 0
    ensures 0 <= i < n
  {
    WrapIsMod(SrcOf(n, phase, slot) - origin, n);
    Wrap(SrcOf(n, phase, slot) - origin, n)
  }

  lemma ModPlus(a: int, b: int, n: int)
    requires n > 0
    ensures (a % n + b) % n == (a + b) % n
  {
    assert a + b == (a / n + (a % n + b) / n) * n + (a % n + b) % n by {
      assert a == (a / n) * n + a % n;
      assert a % n + b == ((a % n + b) / n) * n + (a % n + b) % n;
      assert (a / n + (a % n + b) / n) * n == (a / n) * n + ((a % n + b) / n) * n;
    }
    RemainderIs(a + b, n, a / n + (a % n + b) / n, (a % n + b) % n);
  }

  lemma FileIdxIs(n: int, phase: int, origin: int, slot: int)
    requires n > 0
    ensures SrcOf(n, phase, slot) == (slot + phase) % n
    ensures FileIdx(n, phase, origin, slot) == (slot + phase - origin) % n
  {
    WrapIsMod(slot + phase, n);
    WrapIsMod(SrcOf(n, phase, slot) - origin, n);
    ModPlus(slot + phase, -origin, n);
  }

  /** Every camera sends the content frame of the shared timeline, wherever its own file starts. */
  lemma ContentIsShared(n: int, phase: int, origin: int, slot: int)
    requires n > 0
    ensures (FileIdx(n, phase, origin, slot) + origin) % n == SrcOf(n, phase, slot) == (slot + phase) % n
  {
    FileIdxIs(n, phase, origin, slot);
    ModPlus(slot + phase - origin, origin, n);
  }

  /** A multiple of `n` does not change the remainder by a divisor of `n`. */
  lemma ModDivisor(a: int, n: int, g: int)
    requires n > 0 && g > 0 && n % g == 0
    ensures (a % n) % g == a % g
  {
    var q, k := a / n, n / g;
    assert a == (q * k) * g + a % n by {
      assert n == k * g;
      assert q * n == (q * k) * g;
    }
    ModPlus((q * k) * g, a % n, g);
    RemainderIs((q * k) * g, g, q * k, 0);
  }

  /** In a file with an IDR at every multiple of `g`, slot `k` is an IDR exactly when `k + phase - origin` is one. */
  lemma IdrSlots(isIdr: seq<bool>, g: int, phase: int, origin: int, slot: int)
    requires |isIdr| > 0 && g > 0 && |isIdr| % g == 0
    requires forall i | 0 <= i < |isIdr| :: isIdr[i] <==> i % g == 0
    ensures isIdr[FileIdx(|isIdr|, phase, origin, slot)] <==> (slot + phase - origin) % g == 0
  {
    FileIdxIs(|isIdr|, phase, origin, slot);
    ModDivisor(slot + phase - origin, |isIdr|, g);
  }

  lemma ModDifference(a: int, b: int, g: int)
    requires g > 0 && a % g == 0 && b % g == 0
    ensures (a - b) % g == 0
  {
    assert a - b == (a / g - b / g) * g;
    RemainderIs(a - b, g, a / g - b / g, 0);
  }

  /**
   Staggered IDRs: cameras with the same phase whose origins differ modulo the IDR period send the same content frame in
   every slot, and never an IDR in the same slot.
   */
  lemma IdrsAreStaggered(a: seq<bool>, b: seq<bool>, g: int, phase: int, p: int, q: int, slot: int)
    requires |a| == |b| > 0 && g > 0 && |a| % g == 0 && (p - q) % g != 0
    requires forall i | 0 <= i < |a| :: a[i] <==> i % g == 0
    requires forall i | 0 <= i < |b| :: b[i] <==> i % g == 0
    ensures (FileIdx(|a|, phase, p, slot) + p) % |a| == (FileIdx(|b|, phase, q, slot) + q) % |b|
    ensures !(a[FileIdx(|a|, phase, p, slot)] && b[FileIdx(|b|, phase, q, slot)])
  {
    ContentIsShared(|a|, phase, p, slot);
    ContentIsShared(|b|, phase, q, slot);
    IdrSlots(a, g, phase, p, slot);
    IdrSlots(b, g, phase, q, slot);
    var x, y := slot + phase - p, slot + phase - q;
    assert y - x == p - q;
    if x % g == 0 && y % g == 0 {
      ModDifference(y, x, g);
    }
  }

  lemma IdrsMeet(a: seq<bool>, b: seq<bool>, g: int, phase: int, p: int, q: int) returns (slot: nat)
    requires |a| == |b| > 0 && g > 0 && |a| % g == 0 && (p - q) % g == 0
    requires forall i | 0 <= i < |a| :: a[i] <==> i % g == 0
    requires forall i | 0 <= i < |b| :: b[i] <==> i % g == 0
    ensures a[FileIdx(|a|, phase, p, slot)] && b[FileIdx(|b|, phase, q, slot)]
  {
    hide FileIdx;
    slot := (p - phase) % g;
    IdrSlots(a, g, phase, p, slot);
    IdrSlots(b, g, phase, q, slot);
    ModPlus(p - phase, phase - p, g);
    ModPlus(p - phase, phase - q, g);
    RemainderIs(0, g, 0, 0);
  }

  /**
   Two such cameras have an IDR in the same slot, in some slot from 0 on, exactly when their origins agree modulo `g`.
   */
  lemma IdrsMeetIff(a: seq<bool>, b: seq<bool>, g: int, phase: int, p: int, q: int)
    requires |a| == |b| > 0 && g > 0 && |a| % g == 0
    requires forall i | 0 <= i < |a| :: a[i] <==> i % g == 0
    requires forall i | 0 <= i < |b| :: b[i] <==> i % g == 0
    ensures (p - q) % g == 0 <==> exists slot: nat :: a[FileIdx(|a|, phase, p, slot)] && b[FileIdx(|b|, phase, q, slot)]
  {
    hide FileIdx;
    if (p - q) % g == 0 {
      var slot := IdrsMeet(a, b, g, phase, p, q);
    } else if slot: nat :| a[FileIdx(|a|, phase, p, slot)] && b[FileIdx(|b|, phase, q, slot)] {
      IdrsAreStaggered(a, b, g, phase, p, q, slot);
    }
  }

  // ----- the rungs -----

  /** One encoding of the content. */
  datatype Rung = Rung(kbps: int, aus: seq<AccessUnit>)

  /** As many frames, and IDRs in the same places. */
  ghost predicate SameShape(a: seq<AccessUnit>, b: seq<AccessUnit>) {
    |a| == |b| && forall i | 0 <= i < |a| :: a[i].isIdr == b[i].isIdr
  }

  ghost predicate Aligned(rungs: seq<Rung>) {
    rungs != [] && forall k | 0 <= k < |rungs| :: SameShape(rungs[k].aus, rungs[0].aus)
  }

  /** The last rung with this bitrate. */
  method FindRung(rungs: seq<Rung>, kbps: int) returns (idx: int)
    ensures idx == -1 <==> forall k | 0 <= k < |rungs| :: rungs[k].kbps != kbps
    ensures -1 <= idx < |rungs|
    ensures idx >= 0 ==> rungs[idx].kbps == kbps && forall k | idx < k < |rungs| :: rungs[k].kbps != kbps
  {
    idx := -1;
    for k := 0 to |rungs|
      invariant -1 <= idx < k
      invariant idx >= 0 ==> rungs[idx].kbps == kbps
      invariant forall j | idx < j < k :: 0 <= j ==> rungs[j].kbps != kbps
    {
      if rungs[k].kbps == kbps {
        idx := k;
      }
    }
  }

  ghost predicate RungsOk(rungs: seq<Rung>, origin: int) {
    && Aligned(rungs)
    && |rungs[0].aus| > 0 && rungs[0].aus[0].isIdr
    && 0 <= origin < |rungs[0].aus|
  }

  /** The checks on the files: the start rung if they pass, and a failure exactly when a check fails. */
  method CheckRungs(rungs: seq<Rung>, origin: int, startKbps: int) returns (start: Option<nat>)
    ensures start.Some? <==>
              && RungsOk(rungs, origin)
              && (startKbps > 0 ==> exists k | 0 <= k < |rungs| :: rungs[k].kbps == startKbps)
    ensures start.Some? ==> start.value < |rungs|
    ensures start.Some? && startKbps <= 0 ==> start.value == 0
    ensures start.Some? && startKbps > 0 ==>
              rungs[start.value].kbps == startKbps && forall k | start.value < k < |rungs| :: rungs[k].kbps != startKbps
  {
    if rungs == [] {
      return None;
    }
    for k := 0 to |rungs|
      invariant forall j | 0 <= j < k :: |rungs[j].aus| > 0 && rungs[j].aus[0].isIdr
    {
      if |rungs[k].aus| == 0 || !rungs[k].aus[0].isIdr {
        assert SameShape(rungs[k].aus, rungs[0].aus) && |rungs[0].aus| > 0 ==> !rungs[0].aus[0].isIdr;
        return None;
      }
    }
    var first := rungs[0].aus;
    for k := 1 to |rungs|
      invariant forall j | 0 <= j < k :: SameShape(rungs[j].aus, first)
    {
      var aus := rungs[k].aus;
      if |aus| != |first| {
        return None;
      }
      for i := 0 to |first|
        invariant forall j | 0 <= j < i :: aus[j].isIdr == first[j].isIdr
      {
        if aus[i].isIdr != first[i].isIdr {
          return None;
        }
      }
    }
    var idx := 0;
    if startKbps > 0 {
      idx := FindRung(rungs, startKbps);
      if idx < 0 {
        return None;
      }
    }
    if origin < 0 || origin >= |first| {
      return None;
    }
    return Some(idx);
  }
}
