/**
 The sender's side as RFC 6184 describes it: any packetisation of access units in the
 non-interleaved mode (sections 5.1, 5.2, 5.6, 5.7.1 and 5.8 of RFC 6184).
 */
module Packetisation {
  import opened Common
  import opened DepackSpec

  /** A NAL unit that this mode can send. */
  predicate IsNal(nal: Bytes) {
    |nal| > 0 && 1 <= nal[0] % 32 <= 23
  }

  /** What one packet carries; a fragment is bytes `lo..hi` of its NAL unit, the header byte excluded. */
  datatype Unit =
    | Single(nal: Bytes)
    | Stap(header: byte, nals: seq<Bytes>)
    | Frag(nal: Bytes, lo: nat, hi: nat, first: bool, last: bool)

  predicate IsUnit(u: Unit) {
    match u
    case Single(nal) => IsNal(nal)
    case Stap(header, nals) =>
      header % 32 == 24 && nals != [] && forall i | 0 <= i < |nals| :: IsNal(nals[i]) && |nals[i]| < 0x1_0000
    case Frag(nal, lo, hi, first, last) =>
      && IsNal(nal) && 1 <= lo <= hi <= |nal|
      && (first ==> lo == 1) && (last ==> hi == |nal|) && !(first && last)
  }

  /** The packet leaves a fragmented NAL unit open. */
  predicate LeavesOpen(u: Unit) {
    u.Frag? && !u.last
  }

  /** The packet continues a fragmented NAL unit. */
  predicate Continues(u: Unit) {
    u.Frag? && !u.first
  }

  /** The NAL units that end in this packet. */
  function Completes(u: Unit): seq<Bytes> {
    match u
    case Single(nal) => [nal]
    case Stap(_, nals) => nals
    case Frag(nal, _, _, _, last) => if last then [nal] else []
  }

  /** A NAL unit header of type 5 is in this packet. */
  predicate ShowsIdr(u: Unit)
    requires IsUnit(u)
  {
    match u
    case Single(nal) => nal[0] % 32 == 5
    case Stap(_, nals) => exists i | 0 <= i < |nals| :: nals[i][0] % 32 == 5
    case Frag(nal, _, _, first, _) => first && nal[0] % 32 == 5
  }

  /** A size in network order. */
  function Size16(n: uint16): (r: Bytes)
    ensures |r| == 2
  {
    [n / 0x100, n % 0x100]
  }

  lemma ReadSize16(n: uint16)
    ensures Be16(Size16(n)[0], Size16(n)[1]) == n
  {
  }

  function StapBytes(nals: seq<Bytes>): Bytes
    requires forall i | 0 <= i < |nals| :: |nals[i]| < 0x1_0000
  {
    if nals == [] then [] else Size16(|nals[0]|) + nals[0] + StapBytes(nals[1..])
  }

  /** The RTP payload. */
  function Encode(u: Unit): Bytes
    requires IsUnit(u)
  {
    match u
    case Single(nal) => nal
    case Stap(header, nals) => [header] + StapBytes(nals)
    case Frag(nal, lo, hi, first, last) =>
      [nal[0] - nal[0] % 32 + 28, (if first then 128 else 0) + (if last then 64 else 0) + nal[0] % 32] + nal[lo..hi]
  }

  /** One sent packet, without its sequence number. */
  datatype Sent = Sent(ts: uint32, marker: bool, unit: Unit)

  /** `b` may be sent right after `a`. */
  predicate Follows(a: Sent, b: Sent) {
    && (!a.marker ==> b.ts == a.ts)
    && (LeavesOpen(a.unit) <==> Continues(b.unit))
    && (LeavesOpen(a.unit) ==> !a.marker && b.unit.nal == a.unit.nal && b.unit.lo == a.unit.hi)
  }

  predicate Linked(s: seq<Sent>, k: nat)
    requires 0 < k < |s|
  {
    Follows(s[k - 1], s[k])
  }

  /** A conforming stream: the marker is on the last packet of every access unit and nowhere else. */
  ghost predicate Conforming(s: seq<Sent>) {
    && (forall k | 0 <= k < |s| :: IsUnit(s[k].unit))
    && (s != [] ==> !Continues(s[0].unit) && s[|s| - 1].marker)
    && (forall k | 0 < k < |s| :: Linked(s, k))
    && (forall k | 0 <= k < |s| :: s[k].marker ==> !LeavesOpen(s[k].unit))
  }

  lemma Adjacent(s: seq<Sent>, k: nat)
    requires Conforming(s) && 0 < k < |s|
    ensures Follows(s[k - 1], s[k])
  {
    assert Linked(s, k);
  }

  lemma UnitAt(s: seq<Sent>, k: nat)
    requires Conforming(s) && k < |s|
    ensures IsUnit(s[k].unit)
  {
  }

  /** The packet on the wire when the first one has sequence number `s0`. */
  function Wire(s: seq<Sent>, s0: nat, k: nat): Packet
    requires k < |s| && IsUnit(s[k].unit)
  {
    Packet((s0 + k) % 0x1_0000, s[k].ts, s[k].marker, Encode(s[k].unit))
  }

  /** Annex B with 4-byte start codes. */
  function AnnexB(nals: seq<Bytes>): Bytes {
    if nals == [] then [] else START_CODE + nals[0] + AnnexB(nals[1..])
  }

  lemma {:induction false} AnnexBConcat(a: seq<Bytes>, b: seq<Bytes>)
    ensures AnnexB(a + b) == AnnexB(a) + AnnexB(b)
  {
    if a == [] {
      assert a + b == b;
    } else {
      assert (a + b)[1..] == a[1..] + b;
      AnnexBConcat(a[1..], b);
    }
  }

  lemma {:induction false} AnnexBOne(a: seq<Bytes>, nal: Bytes)
    ensures AnnexB(a + [nal]) == AnnexB(a) + (START_CODE + nal) && AnnexB([nal]) == START_CODE + nal
  {
    AnnexBConcat(a, [nal]);
    assert AnnexB([nal][1..]) == [];
  }

  /** The NAL units that end in packets `lo..hi`. */
  function Nals(s: seq<Sent>, lo: nat, hi: nat): seq<Bytes>
    requires lo <= hi <= |s|
  {
    if lo == hi then [] else Nals(s, lo, hi - 1) + Completes(s[hi - 1].unit)
  }

  /** The first packet of the access unit that packet `k` belongs to. */
  function Head(s: seq<Sent>, k: nat): (h: nat)
    requires k < |s|
    ensures h <= k && (h == 0 || s[h - 1].marker) && forall j | h <= j < k :: !s[j].marker
  {
    if k == 0 || s[k - 1].marker then k else Head(s, k - 1)
  }

  datatype Au = Au(ts: uint32, nals: seq<Bytes>, packets: nat)

  /** The access units of a stream that ends with a marker, oldest first. */
  function Aus(s: seq<Sent>): seq<Au> {
    if s == [] then []
    else
      var h := Head(s, |s| - 1);
      Aus(s[..h]) + [Au(s[|s| - 1].ts, Nals(s, h, |s|), |s| - h)]
  }

  // ----- payloads: what the depacketizer reads back -----

  function AppendNals(a: Assembly, cap: nat, nals: seq<Bytes>): Assembly
    requires forall i | 0 <= i < |nals| :: |nals[i]| > 0
    decreases |nals|
  {
    if nals == [] then a else AppendNals(a.AppendNal(cap, nals[0]), cap, nals[1..])
  }

  /** The aggregation unit at `|before|` is read back. */
  lemma StapUnitAt(before: Bytes, nal: Bytes, rest: Bytes)
    requires 0 < |nal| < 0x1_0000
    ensures var p, off, sz := before + (Size16(|nal|) + nal + rest), |before|, |nal|;
            && off + 2 + sz <= |p| && Be16(p[off], p[off + 1]) == sz && p[off + 2..off + 2 + sz] == nal
            && p == (before + Size16(sz) + nal) + rest
  {
    ReadSize16(|nal|);
    var size := Size16(|nal|);
    var p := before + (size + nal + rest);
    assert p == before + size + nal + rest;
    assert (before + size)[|before|..] == size;
  }

  lemma {:induction false} ReadStap(a: Assembly, cap: nat, before: Bytes, nals: seq<Bytes>)
    requires forall i | 0 <= i < |nals| :: 0 < |nals[i]| < 0x1_0000
    ensures a.StapFrom(cap, before + StapBytes(nals), |before|) == AppendNals(a, cap, nals)
    decreases |nals|
  {
    hide Assembly.AppendNal, Be16, Size16;
    if nals != [] {
      var nal, rest := nals[0], StapBytes(nals[1..]);
      var before' := before + Size16(|nal|) + nal;
      StapUnitAt(before, nal, rest);
      ReadStap(a.AppendNal(cap, nal), cap, before', nals[1..]);
    }
  }

  /** What the payload of a unit does to the access unit being assembled. */
  function TakeUnit(a: Assembly, cap: nat, u: Unit): Assembly
    requires IsUnit(u)
  {
    match u
    case Single(nal) => a.AppendNal(cap, nal).(orphan := false)
    case Stap(_, nals) => AppendNals(a.(orphan := false), cap, nals)
    case Frag(nal, lo, hi, first, last) =>
      (if first then a.BeginFu(cap, nal[0]) else a).ContinueFu(cap, nal[lo..hi], last)
  }

  /** The FU indicator and the FU header give back the NAL unit header and the two flags. */
  lemma FuHeader(h: byte, first: bool, last: bool)
    ensures var indicator, header := h - h % 32 + 28, (if first then 128 else 0) + (if last then 64 else 0) + h % 32;
            && indicator % 32 == 28 && indicator - indicator % 32 + header % 32 == h
            && (header / 128 % 2 == 1 <==> first) && (header / 64 % 2 == 1 <==> last)
  {
  }

  lemma ReadUnit(a: Assembly, cap: nat, u: Unit)
    requires IsUnit(u)
    ensures a.Payload(cap, Encode(u)) == TakeUnit(a, cap, u)
  {
    match u
    case Single(nal) =>
    case Stap(header, nals) =>
      ReadStap(a.(orphan := false), cap, [header], nals);
    case Frag(nal, lo, hi, first, last) =>
      var p := Encode(u);
      assert p[2..] == nal[lo..hi];
      FuHeader(nal[0], first, last);
  }
}
