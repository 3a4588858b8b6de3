/**
 The strict validator of compound RTCP packets against the grammar of section 6 of RFC 3550 and of section 6.1 of
 RFC 4585.
 */
module Rtcp {
  import opened Common

  /** The least size of a packet without padding: what its type and its count field require. */
  function RtcpMinBody(pt: int, count: nat): nat {
    match pt
    case 200 => 28 + 24 * count
    case 201 => 8 + 24 * count
    case 202 => 4 + 8 * count
    case 203 => 4 + 4 * count
    case 204 => 12
    case 205 => 12
    case 206 => 12
    case _ => 0
  }

  /**
   One RTCP packet: `count` is the RC, SC or FMT field, `content` what follows the header word, without the padding.
   */
  datatype Part = Part(pt: int, count: nat, content: Bytes, padding: Bytes) {
    function Len(): nat {
      4 + |content| + |padding|
    }

    /** The length field counts 32-bit words, minus one. */
    function Wire(): (r: Bytes)
      ensures |r| == Len()
    {
      var n := Len() / 4 - 1;
      [128 + (if padding != [] then 32 else 0) + count, pt, n / 0x100, n % 0x100] + content + padding
    }

    /** Its sizes; padding is for the end of a compound, and counts its own bytes in its last one. */
    ghost predicate Valid(isLast: bool) {
      && count < 32 && 200 <= pt <= 206
      && Len() % 4 == 0 && Len() / 4 <= 0x1_0000
      && (padding != [] ==> isLast && padding[|padding| - 1] == |padding|)
      && 4 + |content| >= RtcpMinBody(pt, count)
      && (pt == 200 || pt == 201 ==> 4 + |content| == RtcpMinBody(pt, count))
    }
  }

  function Wire(parts: seq<Part>): Bytes {
    if parts == [] then [] else parts[0].Wire() + Wire(parts[1..])
  }

  /** A compound packet that begins with a sender or receiver report from `ssrc`. */
  ghost predicate Compound(parts: seq<Part>, ssrc: int) {
    && parts != []
    && (forall i | 0 <= i < |parts| :: parts[i].Valid(i == |parts| - 1))
    && StartsWith(parts[0], ssrc)
  }

  // ----- one packet -----

  function LenAt(d: Bytes, off: nat): int
    requires off + 4 <= |d|
  {
    (Be16(d[off + 2], d[off + 3]) + 1) * 4
  }

  /** The tests on the packet at `off`, other than those on its place in the compound. */
  ghost predicate Fits(d: Bytes, off: nat) {
    && off + 4 <= |d| && d[off] / 64 == 2
    && 4 <= LenAt(d, off) && off + LenAt(d, off) <= |d|
    && var len, padded := LenAt(d, off), d[off] / 32 % 2 == 1;
    && (padded ==> off + len == |d| && 1 <= d[off + len - 1] <= len - 4)
    && var body, least := if padded then len - d[off + len - 1] else len, RtcpMinBody(d[off + 1], d[off] % 32);
    && 0 < least <= body && (d[off + 1] == 200 || d[off + 1] == 201 ==> body == least)
  }

  ghost function PartAt(d: Bytes, off: nat): Part
    requires Fits(d, off)
  {
    var len := LenAt(d, off);
    var pad := if d[off] / 32 % 2 == 1 then d[off + len - 1] else 0;
    Part(d[off + 1], d[off] % 32, d[off + 4..off + len - pad], d[off + len - pad..off + len])
  }

  /** What fits is the wire form of a valid packet. */
  lemma FitsIsWire(d: Bytes, off: nat)
    requires Octets(d) && Fits(d, off)
    ensures var p := PartAt(d, off);
            p.Valid(off + LenAt(d, off) == |d|) && p.Len() == LenAt(d, off) && p.Wire() == d[off..off + LenAt(d, off)]
  {
    var p, len := PartAt(d, off), LenAt(d, off);
    assert p.Len() == len;
    assert p.Len() / 4 - 1 == Be16(d[off + 2], d[off + 3]);
    assert d[off..off + len] == [d[off], d[off + 1], d[off + 2], d[off + 3]] + p.content + p.padding;
  }

  lemma FirstByte(count: nat, padded: bool)
    requires count < 32
    ensures var b := 128 + (if padded then 32 else 0) + count;
            b / 64 == 2 && b % 32 == count && (b / 32 % 2 == 1 <==> padded)
  {
  }

  lemma SubSlice(d: Bytes, off: nat, end: nat, a: nat, b: nat)
    requires off <= end <= |d| && a <= b <= end - off
    ensures d[off..end][a..b] == d[off + a..off + b]
  {
    var x, y := d[off..end][a..b], d[off + a..off + b];
    assert forall i | 0 <= i < b - a :: x[i] == y[i];
    assert x == y;
  }

  lemma WireParts(p: Part)
    ensures var w := p.Wire();
            && w[0] == 128 + (if p.padding != [] then 32 else 0) + p.count && w[1] == p.pt
            && Be16(w[2], w[3]) == p.Len() / 4 - 1
            && (p.padding != [] ==> w[|w| - 1] == p.padding[|p.padding| - 1])
            && w[4..4 + |p.content|] == p.content && w[4 + |p.content|..p.Len()] == p.padding
  {
    hide RtcpMinBody;
    var n := p.Len() / 4 - 1;
    assert Be16(n / 0x100, n % 0x100) == n;
  }

  /** The bytes of a packet, wherever it is. */
  lemma WireBytes(d: Bytes, off: nat, p: Part)
    requires off + p.Len() <= |d| && p.Wire() == d[off..off + p.Len()]
    ensures d[off] == 128 + (if p.padding != [] then 32 else 0) + p.count && d[off + 1] == p.pt
    ensures Be16(d[off + 2], d[off + 3]) == p.Len() / 4 - 1
    ensures p.padding != [] ==> d[off + p.Len() - 1] == p.padding[|p.padding| - 1]
    ensures p.content == d[off + 4..off + 4 + |p.content|] && p.padding == d[off + 4 + |p.content|..off + p.Len()]
  {
    WireParts(p);
    hide Part.Wire, Be16;
    SubSlice(d, off, off + p.Len(), 4, 4 + |p.content|);
    SubSlice(d, off, off + p.Len(), 4 + |p.content|, p.Len());
  }

  /** The wire form of a valid packet fits, and is read back. */
  lemma WireFits(d: Bytes, off: nat, p: Part)
    requires Octets(d) && off + p.Len() <= |d| && p.Wire() == d[off..off + p.Len()] && p.Valid(off + p.Len() == |d|)
    ensures Fits(d, off) && LenAt(d, off) == p.Len() && PartAt(d, off) == p
  {
    hide Part.Wire, Be16;
    WireBytes(d, off, p);
    FirstByte(p.count, p.padding != []);
  }

  // ----- the compound -----

  lemma {:induction false} WireConcat(a: seq<Part>, b: seq<Part>)
    ensures Wire(a + b) == Wire(a) + Wire(b)
  {
    hide Part.Wire;
    if a == [] {
      assert a + b == b;
    } else {
      assert (a + b)[0] == a[0] && (a + b)[1..] == a[1..] + b;
      WireConcat(a[1..], b);
    }
  }

  lemma WireOne(p: Part)
    ensures Wire([p]) == p.Wire()
  {
    hide Part.Wire;
    assert [p][1..] == [];
  }

  lemma {:induction false} WireNotEmpty(parts: seq<Part>)
    ensures Wire(parts) == [] <==> parts == []
  {
    hide Part.Wire;
    if parts != [] {
      assert |parts[0].Wire()| >= 4;
    }
  }

  lemma {:induction false} WireSnoc(parts: seq<Part>, p: Part)
    ensures Wire(parts + [p]) == Wire(parts) + p.Wire()
  {
    WireConcat(parts, [p]);
    WireOne(p);
  }

  lemma MiddleSlice(x: Bytes, y: Bytes, z: Bytes)
    ensures (x + y + z)[|x|..|x| + |y|] == y
  {
  }

  /** The first `n` packets and the packet after them. */
  lemma {:induction false} WireSplit(parts: seq<Part>, n: nat)
    requires n < |parts|
    ensures var off := |Wire(parts[..n])|;
            && |Wire(parts[..n + 1])| == off + parts[n].Len() <= |Wire(parts)|
            && Wire(parts)[off..off + parts[n].Len()] == parts[n].Wire()
            && (off + parts[n].Len() == |Wire(parts)| <==> n + 1 == |parts|)
  {
    hide Part.Wire, Wire;
    var init, rest := parts[..n], parts[n + 1..];
    assert parts[..n + 1] == init + [parts[n]] && parts == parts[..n + 1] + rest;
    WireSnoc(init, parts[n]);
    WireConcat(parts[..n + 1], rest);
    WireNotEmpty(rest);
    MiddleSlice(Wire(init), parts[n].Wire(), Wire(rest));
  }

  ghost predicate IsCompound(d: Bytes, ssrc: int) {
    exists parts :: Compound(parts, ssrc) && Wire(parts) == d
  }

  /** Every compound that `d` could be begins with the packets read so far. */
  ghost predicate Agrees(d: Bytes, ssrc: int, read: seq<Part>) {
    forall parts | Compound(parts, ssrc) && Wire(parts) == d :: |read| <= |parts| && parts[..|read|] == read
  }

  /** In a compound, a packet fits at the end of those read so far, unless that is the end. */
  lemma {:induction false} AgreesOn(d: Bytes, ssrc: int, read: seq<Part>, parts: seq<Part>)
    requires Octets(d) && Agrees(d, ssrc, read) && Compound(parts, ssrc) && Wire(parts) == d
    ensures var off, n := |Wire(read)|, |read|;
            if off < |d| then n < |parts| && Fits(d, off) && PartAt(d, off) == parts[n] else off == |d| && parts == read
  {
    hide Fits, Part.Wire, Wire, Compound, Part.Valid;
    var n := |read|;
    if n < |parts| {
      WireSplit(parts, n);
      ValidPart(parts, ssrc, n);
      WireFits(d, |Wire(read)|, parts[n]);
    } else {
      assert parts[..n] == parts;
    }
  }

  lemma ValidPart(parts: seq<Part>, ssrc: int, n: nat)
    requires Compound(parts, ssrc) && n < |parts|
    ensures parts[n].Valid(n + 1 == |parts|)
  {
  }

  /** One more packet is read. */
  lemma {:induction false} AgreesSnoc(d: Bytes, ssrc: int, read: seq<Part>)
    requires Octets(d) && Agrees(d, ssrc, read) && |Wire(read)| < |d|
    ensures !Fits(d, |Wire(read)|) ==> !IsCompound(d, ssrc)
    ensures Fits(d, |Wire(read)|) ==> Agrees(d, ssrc, read + [PartAt(d, |Wire(read)|)])
  {
    hide Fits, Wire, Compound, PartAt;
    forall parts | Compound(parts, ssrc) && Wire(parts) == d
      ensures Fits(d, |Wire(read)|) && |read| < |parts| && parts[..|read| + 1] == read + [PartAt(d, |Wire(read)|)]
    {
      AgreesOn(d, ssrc, read, parts);
    }
  }

  /** The packets read so far are valid, and the first is a report from `ssrc`. */
  ghost predicate ReadSoFar(d: Bytes, ssrc: int, off: nat, read: seq<Part>) {
    && off <= |d| && Wire(read) == d[..off]
    && (forall i | 0 <= i < |read| :: read[i].Valid(i == |read| - 1 && off == |d|))
    && (read != [] ==> StartsWith(read[0], ssrc))
  }

  ghost predicate StartsWith(p: Part, ssrc: int) {
    (p.pt == 200 || p.pt == 201) && var c := p.content; |c| >= 4 && Be32(c[0], c[1], c[2], c[3]) == ssrc
  }

  lemma ReadOn(d: Bytes, ssrc: int, off: nat, read: seq<Part>)
    requires Octets(d) && ReadSoFar(d, ssrc, off, read) && Fits(d, off)
    requires read == [] ==> StartsWith(PartAt(d, off), ssrc)
    ensures ReadSoFar(d, ssrc, off + LenAt(d, off), read + [PartAt(d, off)])
  {
    hide Wire, StartsWith, PartAt;
    var p, len := PartAt(d, off), LenAt(d, off);
    FitsIsWire(d, off);
    hide Fits, Part.Wire, LenAt;
    WireSnoc(read, p);
    assert d[..off + len] == d[..off] + d[off..off + len];
    assert forall i | 0 <= i < |read| :: read[i].Valid(false);
  }

  /** A first packet of another type, or from another source, is no compound of this one. */
  lemma WrongStart(d: Bytes, ssrc: int)
    requires Octets(d) && Fits(d, 0) && !StartsWith(PartAt(d, 0), ssrc)
    ensures !IsCompound(d, ssrc)
  {
    hide Fits, PartAt;
    forall parts | Compound(parts, ssrc) && Wire(parts) == d
      ensures false
    {
      AgreesOn(d, ssrc, [], parts);
    }
  }

  /** A report has its SSRC right after the header word. */
  lemma FirstSsrc(d: Bytes, off: nat, ssrc: int)
    requires Fits(d, off)
    ensures StartsWith(PartAt(d, off), ssrc)
       <==> (d[off + 1] == 200 || d[off + 1] == 201) && Be32(d[off + 4], d[off + 5], d[off + 6], d[off + 7]) == ssrc
  {
    hide Be32;
  }

  lemma AllRead(d: Bytes, ssrc: int, off: nat, read: seq<Part>)
    requires Octets(d) && ReadSoFar(d, ssrc, off, read) && Agrees(d, ssrc, read) && off + 4 > |d|
    ensures read != [] && off == |d| <==> IsCompound(d, ssrc)
  {
    hide Wire, Part.Wire, Part.Valid;
    if off == |d| {
      assert d[..off] == d;
      if read != [] {
        assert Compound(read, ssrc);
      } else if parts :| Compound(parts, ssrc) && Wire(parts) == d {
        AgreesOn(d, ssrc, read, parts);
      }
    } else {
      AgreesSnoc(d, ssrc, read);
    }
  }

  /** The validator accepts exactly the compounds that begin with a report from `ssrc`. */
  method IsValidRtcpCompoundFrom(d: Bytes, ssrc: int) returns (ok: bool)
    requires Octets(d)
    ensures ok <==> IsCompound(d, ssrc)
  {
    hide Fits, PartAt, Wire, ReadSoFar, Agrees, IsCompound, StartsWith, RtcpMinBody, Be32;
    ok := false;
    var off, idx := 0, 0;
    ghost var read: seq<Part> := [];
    NothingRead(d, ssrc);
    while off + 4 <= |d|
      invariant ReadSoFar(d, ssrc, off, read) && Agrees(d, ssrc, read) && |Wire(read)| == off <= |d|
      invariant idx == |read| && (ok <==> read != [])
      decreases |d| - off
    {
      AgreesSnoc(d, ssrc, read);
      var fits, len := FitsAt(d, off);
      if !fits {
        return false;
      }
      FirstSsrc(d, off, ssrc);
      if idx == 0 {
        if d[off + 1] != 200 && d[off + 1] != 201 {
          WrongStart(d, ssrc);
          return false;
        }
        if Be32(d[off + 4], d[off + 5], d[off + 6], d[off + 7]) != ssrc {
          WrongStart(d, ssrc);
          return false;
        }
        ok := true;
      }
      ReadOn(d, ssrc, off, read);
      read := read + [PartAt(d, off)];
      WireLength(d, ssrc, off + len, read);
      off, idx := off + len, idx + 1;
    }
    AllRead(d, ssrc, off, read);
    if off != |d| {
      ok := false;
    }
  }

  lemma NothingRead(d: Bytes, ssrc: int)
    ensures ReadSoFar(d, ssrc, 0, []) && Agrees(d, ssrc, []) && Wire([]) == []
  {
  }

  lemma {:induction false} WireLength(d: Bytes, ssrc: int, off: nat, read: seq<Part>)
    requires ReadSoFar(d, ssrc, off, read)
    ensures |Wire(read)| == off <= |d|
  {
  }

  /** The tests on one packet. */
  method FitsAt(d: Bytes, off: nat) returns (fits: bool, len: nat)
    requires Octets(d) && off + 4 <= |d|
    ensures fits <==> Fits(d, off)
    ensures len == LenAt(d, off) >= 4 && (fits ==> off + len <= |d|)
    ensures fits && (d[off + 1] == 200 || d[off + 1] == 201) ==> len >= 8
  {
    len := (Be16(d[off + 2], d[off + 3]) + 1) * 4;
    if d[off] / 64 != 2 {
      return false, len;
    }
    var padded, rc, pt := d[off] / 32 % 2 == 1, d[off] % 32, d[off + 1];
    if len < 4 || off + len > |d| {
      return false, len;
    }
    if padded {
      if off + len != |d| {
        return false, len;
      }
      var pad := d[off + len - 1];
      if pad == 0 || pad > len - 4 {
        return false, len;
      }
    }
    var body := if padded then len - d[off + len - 1] else len;
    var minBody := RtcpMinBody(pt, rc);
    if minBody == 0 || body < minBody {
      return false, len;
    }
    if (pt == 200 || pt == 201) && body != minBody {
      return false, len;
    }
    fits := true;
  }

  // ----- the trace row -----

  const MAX_RTCP_PARTS := 8

  datatype Row = Row(ssrc: int, pt: seq<int>, fmt: seq<int>)

  lemma {:induction false} NextPart(d: Bytes, parts: seq<Part>, ssrc: int, k: nat)
    requires Octets(d) && Compound(parts, ssrc) && Wire(parts) == d && k <= |parts|
    ensures var off := |Wire(parts[..k])|;
            if off + 4 <= |d| then
              && k < |parts| && Fits(d, off) && PartAt(d, off) == parts[k]
              && off + LenAt(d, off) == |Wire(parts[..k + 1])|
            else k == |parts|
  {
    hide Fits, PartAt, Part.Wire, Wire, Part.Valid;
    if k < |parts| {
      WireSplit(parts, k);
      ValidPart(parts, ssrc, k);
      WireFits(d, |Wire(parts[..k])|, parts[k]);
    } else {
      assert parts[..k] == parts;
    }
  }

  /** At `off` there is the header word of a packet of version 2 that ends within the buffer. */
  predicate Framed(d: Bytes, off: nat) {
    off + 4 <= |d| && d[off] / 64 == 2 && off + LenAt(d, off) <= |d|
  }

  /** Packet after packet from the start of the buffer: where each of them begins, and where the last one ends. */
  ghost predicate Walk(d: Bytes, os: seq<nat>) {
    && os != [] && os[0] == 0
    && forall i | 0 <= i < |os| - 1 :: Framed(d, os[i]) && os[i + 1] == os[i] + LenAt(d, os[i])
  }

  /** The row of the packets that the walk `os` meets. */
  ghost predicate RowOf(d: Bytes, os: seq<nat>, row: Row)
    requires Octets(d)
  {
    Walk(d, os) && TypesOf(d, os, row) && row.ssrc == FirstWord(d, os)
  }

  ghost predicate TypesOf(d: Bytes, os: seq<nat>, row: Row)
    requires Walk(d, os)
  {
    && |row.pt| == |row.fmt| == |os| - 1
    && forall i | 0 <= i < |os| - 1 :: row.pt[i] == d[os[i] + 1] && row.fmt[i] == d[os[i]] % 32
  }

  /** What comes after the header word of the first packet, if the packet holds that much. */
  function FirstWord(d: Bytes, os: seq<nat>): int {
    if |os| > 1 && 8 <= os[1] <= |d| then Be32(d[4], d[5], d[6], d[7]) else 0
  }

  /** In a compound the walk meets its packets. */
  lemma {:induction false} WalkParts(d: Bytes, os: seq<nat>, parts: seq<Part>, ssrc: int, k: nat)
    requires Octets(d) && Compound(parts, ssrc) && Wire(parts) == d && Walk(d, os) && k < |os|
    ensures k <= |parts| && os[k] == |Wire(parts[..k])|
  {
    hide Compound, Wire, Fits, PartAt, LenAt;
    if k == 0 {
      NothingRead(d, ssrc);
      assert parts[..0] == [];
    } else {
      WalkParts(d, os, parts, ssrc, k - 1);
      assert Framed(d, os[k - 1]);
      NextPart(d, parts, ssrc, k - 1);
    }
  }

  /** The row of a compound. */
  lemma {:induction false} RowOfCompound(d: Bytes, os: seq<nat>, row: Row, parts: seq<Part>, ssrc: int)
    requires Octets(d) && Compound(parts, ssrc) && Wire(parts) == d && RowOf(d, os, row)
    requires |row.pt| == MAX_RTCP_PARTS || (|row.pt| < MAX_RTCP_PARTS && !Framed(d, os[|row.pt|]))
    ensures row.ssrc == ssrc && |row.pt| == (if |parts| < MAX_RTCP_PARTS then |parts| else MAX_RTCP_PARTS)
    ensures forall i | 0 <= i < |row.pt| :: row.pt[i] == parts[i].pt && row.fmt[i] == parts[i].count
  {
    hide Compound, Wire, Be32, Part.Valid, RtcpMinBody;
    var k := |row.pt|;
    WalkParts(d, os, parts, ssrc, k);
    NextPart(d, parts, ssrc, k);
    forall i | 0 <= i < k
      ensures row.pt[i] == parts[i].pt && row.fmt[i] == parts[i].count
    {
      WalkParts(d, os, parts, ssrc, i);
      NextPart(d, parts, ssrc, i);
    }
    FirstRead(d, os, parts, ssrc);
  }

  lemma {:induction false} FirstRead(d: Bytes, os: seq<nat>, parts: seq<Part>, ssrc: int)
    requires Octets(d) && Compound(parts, ssrc) && Wire(parts) == d && Walk(d, os)
    ensures Framed(d, 0) && LenAt(d, 0) >= 8 && Be32(d[4], d[5], d[6], d[7]) == ssrc
  {
    hide Wire, Be32, Part.Valid;
    NothingRead(d, ssrc);
    assert parts[..0] == [];
    NextPart(d, parts, ssrc, 0);
    FirstSsrc(d, 0, ssrc);
  }

  lemma {:induction false} RowOfCompounds(d: Bytes, os: seq<nat>, row: Row)
    requires Octets(d) && RowOf(d, os, row)
    requires |row.pt| == MAX_RTCP_PARTS || (|row.pt| < MAX_RTCP_PARTS && !Framed(d, os[|row.pt|]))
    ensures forall parts: seq<Part>, ssrc: int | Compound(parts, ssrc) && Wire(parts) == d ::
              && row.ssrc == ssrc && |row.pt| == (if |parts| < MAX_RTCP_PARTS then |parts| else MAX_RTCP_PARTS)
              && forall i | 0 <= i < |row.pt| :: row.pt[i] == parts[i].pt && row.fmt[i] == parts[i].count
  {
    assert |row.fmt| == |row.pt|;
    hide *;
    forall parts: seq<Part>, ssrc: int | Compound(parts, ssrc) && Wire(parts) == d
      ensures && row.ssrc == ssrc && |row.pt| == (if |parts| < MAX_RTCP_PARTS then |parts| else MAX_RTCP_PARTS)
              && forall i | 0 <= i < |row.pt| :: row.pt[i] == parts[i].pt && row.fmt[i] == parts[i].count
    {
      RowOfCompound(d, os, row, parts, ssrc);
    }
  }

  lemma WalkOn(d: Bytes, os: seq<nat>)
    requires Octets(d) && Walk(d, os) && Framed(d, os[|os| - 1])
    ensures var off := os[|os| - 1];
            LenAt(d, off) >= 4 && Walk(d, os + [off + LenAt(d, off)])
  {
    hide LenAt;
    var off, n := os[|os| - 1], |os|;
    HasLength(d, off);
    var os' := os + [off + LenAt(d, off)];
    forall i | 0 <= i < n
      ensures Framed(d, os'[i]) && os'[i + 1] == os'[i] + LenAt(d, os'[i])
    {
      assert i < n - 1 ==> Framed(d, os[i]) && os[i + 1] == os[i] + LenAt(d, os[i]);
    }
  }

  lemma TypesOn(d: Bytes, os: seq<nat>, row: Row, next: nat, s: int)
    requires Octets(d) && Walk(d, os) && Walk(d, os + [next]) && TypesOf(d, os, row)
    ensures os[|os| - 1] + 4 <= |d|
    ensures var off := os[|os| - 1];
            TypesOf(d, os + [next], Row(s, row.pt + [d[off + 1]], row.fmt + [d[off] % 32]))
  {
    var os', n := os + [next], |os| - 1;
    assert Framed(d, os'[n]) && os'[n] == os[n];
    hide Walk, Octets;
    assert forall i | 0 <= i < |os| :: os'[i] == os[i];
  }

  lemma FirstWordStays(d: Bytes, os: seq<nat>)
    requires Octets(d) && Walk(d, os) && Framed(d, os[|os| - 1])
    ensures var off := os[|os| - 1];
            FirstWord(d, os + [off + LenAt(d, off)]) ==
            if |os| > 1 then FirstWord(d, os)
            else if LenAt(d, off) >= 8 then Be32(d[off + 4], d[off + 5], d[off + 6], d[off + 7])
            else 0
  {
    hide LenAt, Be32;
    assert |os| > 1 ==> (os + [os[|os| - 1] + LenAt(d, os[|os| - 1])])[1] == os[1];
  }

  lemma HasLength(d: Bytes, off: nat)
    requires Octets(d) && off + 4 <= |d|
    ensures LenAt(d, off) >= 4
  {
  }

  lemma NoRow(d: Bytes)
    requires Octets(d)
    ensures RowOf(d, [0], Row(0, [], []))
  {
  }

  /** The walk meets one more packet. */
  lemma RowOn(d: Bytes, os: seq<nat>, row: Row)
    requires Octets(d) && RowOf(d, os, row) && Framed(d, os[|row.pt|])
    ensures var off := os[|row.pt|];
            var len := LenAt(d, off);
            var first := row.pt == [] && len >= 8;
            var s := if first then Be32(d[off + 4], d[off + 5], d[off + 6], d[off + 7]) else row.ssrc;
            len > 0 && RowOf(d, os + [off + len], Row(s, row.pt + [d[off + 1]], row.fmt + [d[off] % 32]))
  {
    WalkOn(d, os);
    FirstWordStays(d, os);
    hide FirstWord, Walk, LenAt, Be32;
    var off := os[|row.pt|];
    var first := row.pt == [] && LenAt(d, off) >= 8;
    var s := if first then Be32(d[off + 4], d[off + 5], d[off + 6], d[off + 7]) else row.ssrc;
    TypesOn(d, os, row, off + LenAt(d, off), s);
  }

  /**
   The row of any buffer, accepted or not, holds the types and the counts of the packets that the walk meets: up to
   eight, and up to the first one that has not version 2 or does not end within the buffer; `os` is where they begin.
   In a buffer that the validator accepts these are its packets, and the SSRC is that of the first.
   */
  method FillRtcpRow(d: Bytes) returns (row: Row, ghost os: seq<nat>)
    requires Octets(d)
    ensures RowOf(d, os, row)
    ensures |row.pt| == MAX_RTCP_PARTS || (|row.pt| < MAX_RTCP_PARTS && !Framed(d, os[|row.pt|]))
    ensures forall parts: seq<Part>, ssrc: int | Compound(parts, ssrc) && Wire(parts) == d ::
              && row.ssrc == ssrc && |row.pt| == (if |parts| < MAX_RTCP_PARTS then |parts| else MAX_RTCP_PARTS)
              && forall i | 0 <= i < |row.pt| :: row.pt[i] == parts[i].pt && row.fmt[i] == parts[i].count
  {
    hide Fits, PartAt, Wire, Compound, Be32, RtcpMinBody, Part.Wire, Part.Valid, StartsWith, RowOf;
    row, os := Row(0, [], []), [0];
    var off := 0;
    NoRow(d);
    while off + 4 <= |d| && |row.pt| < MAX_RTCP_PARTS
      invariant RowOf(d, os, row) && |os| == |row.pt| + 1 && off == os[|row.pt|] && |row.pt| <= MAX_RTCP_PARTS
      decreases |d| - off
    {
      if d[off] / 64 != 2 {
        break;
      }
      var len := (Be16(d[off + 2], d[off + 3]) + 1) * 4;
      if off + len > |d| {
        break;
      }
      RowOn(d, os, row);
      if |row.pt| == 0 && len >= 8 {
        row := row.(ssrc := Be32(d[off + 4], d[off + 5], d[off + 6], d[off + 7]));
      }
      row, os := row.(pt := row.pt + [d[off + 1]], fmt := row.fmt + [d[off] % 32]), os + [off + len];
      off := off + len;
    }
    RowOfCompounds(d, os, row);
  }
}
