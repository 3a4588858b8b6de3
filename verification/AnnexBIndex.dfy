/** The access unit index of a pre-encoded Annex B file. */
module AnnexBIndex {
  import opened Common

  // ----- what the file is made of -----

  /** A NAL unit header follows a start code at `p`. */
  predicate HeaderAt(d: Bytes, p: int) {
    3 <= p < |d| && d[p - 3] == 0 && d[p - 2] == 0 && d[p - 1] == 1
  }

  /** Where the start code before header `p` begins: a zero byte before the three is part of it. */
  function CodeBegin(d: Bytes, p: nat): nat
    requires HeaderAt(d, p)
  {
    if p >= 4 && d[p - 4] == 0 then p - 4 else p - 3
  }

  function NalType(d: Bytes, p: nat): nat
    requires p < |d|
  {
    d[p] % 32
  }

  predicate DelimiterAt(d: Bytes, p: int) {
    HeaderAt(d, p) && NalType(d, p) == 9
  }

  predicate IdrAt(d: Bytes, p: int) {
    HeaderAt(d, p) && NalType(d, p) == 5
  }

  /** There is no header in `lo..hi`. */
  ghost predicate NoHeader(d: Bytes, lo: int, hi: int) {
    forall p | lo <= p < hi :: !HeaderAt(d, p)
  }

  // ----- the scan -----

  datatype Found = NotFound | At(begin: nat, header: nat)

  /** The start code at or after `from`; one that ends the buffer does not count. */
  method NextStartCode(d: Bytes, from: nat) returns (r: Found)
    ensures r.NotFound? ==> NoHeader(d, from + 3, |d|)
    ensures r.At? ==> HeaderAt(d, r.header) && from <= r.begin < r.header && NoHeader(d, from + 3, r.header)
    ensures r.At? ==> r.begin == (if r.header >= from + 4 && d[r.header - 4] == 0 then r.header - 4 else r.header - 3)
  {
    var n := |d|;
    var i := from;
    while i + 3 <= n
      invariant from <= i
      invariant NoHeader(d, from + 3, i + 3)
      invariant i > from && i + 2 < n ==> !(d[i - 1] == 0 && d[i] == 0 && d[i + 1] == 0 && d[i + 2] == 1)
    {
      if d[i] == 0 && d[i + 1] == 0 {
        if d[i + 2] == 1 {
          return if i + 3 >= n then NotFound else At(i, i + 3);
        }
        if i + 4 <= n && d[i + 2] == 0 && d[i + 3] == 1 {
          return if i + 4 >= n then NotFound else At(i, i + 4);
        }
      }
      i := i + 1;
    }
    return NotFound;
  }

  // ----- the index -----

  datatype AccessUnit = AccessUnit(begin: nat, bytes: nat, isIdr: bool) {
    function End(): nat {
      begin + bytes
    }
  }

  datatype Index = Units(aus: seq<AccessUnit>) | NoStartCode | NotAtDelimiter | NoAccessUnits

  /** One access unit: from the delimiter at `h` to `a.End()`, with no other delimiter in it. */
  ghost predicate Unit(d: Bytes, h: nat, a: AccessUnit) {
    && DelimiterAt(d, h) && CodeBegin(d, h) == a.begin && h < a.End() <= |d|
    && (forall q | h < q < a.End() :: !DelimiterAt(d, q))
    && (a.isIdr <==> exists q :: h < q < a.End() && IdrAt(d, q))
  }

  ghost predicate IsUnit(d: Bytes, a: AccessUnit) {
    exists h: nat :: Unit(d, h, a)
  }

  /** The access units `aus` fill `begin..end`. */
  ghost predicate Tiles(d: Bytes, aus: seq<AccessUnit>, begin: nat, end: nat) {
    if aus == [] then begin == end
    else
      var n := |aus| - 1;
      IsUnit(d, aus[n]) && aus[n].End() == end && Tiles(d, aus[..n], begin, aus[n].begin)
  }

  ghost predicate FirstHeader(d: Bytes, p: int) {
    HeaderAt(d, p) && NoHeader(d, 0, p)
  }

  /** The byte after a start code is no part of another one, and the bytes of a start code are no NAL unit headers. */
  lemma HeadersApart(d: Bytes, p: nat, q: nat)
    requires HeaderAt(d, p) && HeaderAt(d, q) && p < q
    ensures p <= CodeBegin(d, q) && (d[p] % 32 != 0 ==> p < CodeBegin(d, q))
  {
  }

  /** What has been read of the open access unit when the scan is at header `pos`. */
  ghost predicate Scanned(d: Bytes, h: nat, begin: nat, isIdr: bool, pos: nat) {
    && DelimiterAt(d, h) && CodeBegin(d, h) == begin && h < pos <= |d|
    && (forall q | h < q < pos :: !DelimiterAt(d, q))
    && (isIdr <==> exists q :: h < q < pos && IdrAt(d, q))
  }

  /** The next delimiter, or the end of the file, ends the access unit. */
  lemma ScannedIsUnit(d: Bytes, h: nat, begin: nat, isIdr: bool, pos: nat)
    requires Scanned(d, h, begin, isIdr, pos) && (pos == |d| || DelimiterAt(d, pos))
    ensures var end := if pos == |d| then |d| else CodeBegin(d, pos);
            begin < end && Unit(d, h, AccessUnit(begin, end - begin, isIdr))
  {
    if pos < |d| {
      HeadersApart(d, h, pos);
      forall q: nat | h < q < pos && IdrAt(d, q)
        ensures q < CodeBegin(d, pos)
      {
        HeadersApart(d, q, pos);
      }
    }
  }

  lemma {:induction false} TilesNone(d: Bytes, begin: nat)
    ensures Tiles(d, [], begin, begin)
  {
  }

  lemma {:induction false} TilesSnoc(d: Bytes, aus: seq<AccessUnit>, a: AccessUnit, begin: nat, h: nat)
    requires Tiles(d, aus, begin, a.begin) && Unit(d, h, a)
    ensures Tiles(d, aus + [a], begin, a.End())
  {
    assert (aus + [a])[..|aus|] == aus;
  }

  /** The scan goes on to the header at `next`, or to the end. */
  lemma ScanOn(d: Bytes, h: nat, begin: nat, isIdr: bool, pos: nat, next: nat)
    requires HeaderAt(d, pos) && DelimiterAt(d, h) && CodeBegin(d, h) == begin && h <= pos < next <= |d|
    requires h < pos ==> Scanned(d, h, begin, isIdr, pos) && !DelimiterAt(d, pos)
    requires h == pos ==> !isIdr
    requires NoHeader(d, pos + 1, next)
    ensures Scanned(d, h, begin, isIdr || NalType(d, pos) == 5, next)
  {
    assert forall q | h < q < next && HeaderAt(d, q) :: q <= pos;
    if NalType(d, pos) == 5 {
      assert IdrAt(d, pos);
    } else if isIdr {
      var q :| h < q < pos && IdrAt(d, q);
    }
  }

  lemma NoHeaderInside(d: Bytes, pos: nat, hi: nat)
    requires HeaderAt(d, pos) && NoHeader(d, pos + 3, hi)
    ensures NoHeader(d, pos + 1, hi)
  {
  }

  lemma FirstHeaderIsFirst(d: Bytes, p: nat, q: nat)
    requires FirstHeader(d, p) && FirstHeader(d, q)
    ensures p == q
  {
  }

  /**
   The index of a file: an error exactly when there is no start code, or the first NAL unit is no delimiter; otherwise
   the access units fill the file from its first start code to its end, and each is what `Unit` says.
   */
  method IndexAccessUnits(d: Bytes) returns (r: Index)
    ensures !r.NoAccessUnits?
    ensures r.NoStartCode? <==> NoHeader(d, 0, |d|)
    ensures forall p: nat | FirstHeader(d, p) :: r.NotAtDelimiter? <==> !DelimiterAt(d, p)
    ensures forall p: nat | FirstHeader(d, p) && r.Units? :: r.aus != [] && Tiles(d, r.aus, CodeBegin(d, p), |d|)
  {
    hide Tiles, Unit, Scanned;
    var aus: seq<AccessUnit> := [];
    var found := NextStartCode(d, 0);
    if found.NotFound? {
      return NoStartCode;
    }
    var sc, pos := found.begin, found.header;
    ghost var first := pos;
    assert FirstHeader(d, first);
    forall p: nat | FirstHeader(d, p)
      ensures p == first
    {
      FirstHeaderIsFirst(d, p, first);
    }
    var auBegin: int, isIdr := -1, false;
    ghost var h, start := first, sc;
    while true
      invariant HeaderAt(d, pos) && sc == CodeBegin(d, pos)
      invariant auBegin < 0 ==> pos == first && sc == start && aus == []
      invariant auBegin >= 0 ==>
                  && DelimiterAt(d, first) && DelimiterAt(d, h) && CodeBegin(d, h) == auBegin && h < pos
                  && Scanned(d, h, auBegin, isIdr, pos)
                  && Tiles(d, aus, start, auBegin)
      decreases |d| - pos
    {
      var naluType := NalType(d, pos);
      if naluType == 9 {
        if auBegin >= 0 {
          ScannedIsUnit(d, h, auBegin, isIdr, pos);
          var au := AccessUnit(auBegin, sc - auBegin, isIdr);
          TilesSnoc(d, aus, au, start, h);
          aus := aus + [au];
        } else {
          TilesNone(d, start);
        }
        auBegin, isIdr, h := sc, false, pos;
      } else if auBegin < 0 {
        return NotAtDelimiter;
      }
      ghost var before := isIdr;
      if naluType == 5 {
        isIdr := true;
      }
      found := NextStartCode(d, pos);
      ghost var next := if found.At? then found.header else |d|;
      NoHeaderInside(d, pos, next);
      ScanOn(d, h, auBegin, before, pos, next);
      if found.NotFound? {
        break;
      }
      sc, pos := found.begin, found.header;
    }
    if auBegin >= 0 {
      ScannedIsUnit(d, h, auBegin, isIdr, |d|);
      var au := AccessUnit(auBegin, |d| - auBegin, isIdr);
      TilesSnoc(d, aus, au, start, h);
      aus := aus + [au];
    }
    return if aus == [] then NoAccessUnits else Units(aus);
  }

  // ----- what the tiling means -----

  function Data(d: Bytes, a: AccessUnit): Bytes
    requires a.End() <= |d|
  {
    d[a.begin..a.End()]
  }

  /** The bytes of the access units, one after the other. */
  ghost function AllData(d: Bytes, aus: seq<AccessUnit>): Bytes
    requires forall i | 0 <= i < |aus| :: aus[i].End() <= |d|
  {
    if aus == [] then [] else AllData(d, aus[..|aus| - 1]) + Data(d, aus[|aus| - 1])
  }

  /** Nothing is lost or duplicated: the access units put together are the file from its first start code on. */
  lemma {:induction false} TilesCover(d: Bytes, aus: seq<AccessUnit>, begin: nat, end: nat)
    requires Tiles(d, aus, begin, end) && end <= |d|
    ensures begin <= end && (forall i | 0 <= i < |aus| :: aus[i].End() <= |d|)
    ensures AllData(d, aus) == d[begin..end]
  {
    if aus != [] {
      var n := |aus| - 1;
      TilesCover(d, aus[..n], begin, aus[n].begin);
      assert forall i | 0 <= i < n :: aus[..n][i] == aus[i];
      assert d[begin..end] == d[begin..aus[n].begin] + d[aus[n].begin..end];
    }
  }

  /** Two access units with the same end are the same: the later one would hold the delimiter of the other. */
  lemma UnitIsUnique(d: Bytes, g: nat, a: AccessUnit, h: nat, b: AccessUnit)
    requires Unit(d, g, a) && Unit(d, h, b) && a.End() == b.End()
    ensures a == b
  {
    assert !(g < h) && !(h < g);
  }

  /** The file determines its index. */
  lemma {:induction false} IndexIsUnique(d: Bytes, a: seq<AccessUnit>, b: seq<AccessUnit>, begin: nat, end: nat)
    requires Tiles(d, a, begin, end) && Tiles(d, b, begin, end) && end <= |d|
    ensures a == b
  {
    TilesCover(d, a, begin, end);
    TilesCover(d, b, begin, end);
    if a != [] && b != [] {
      var m, n := |a| - 1, |b| - 1;
      var g: nat :| Unit(d, g, a[m]);
      var h: nat :| Unit(d, h, b[n]);
      UnitIsUnique(d, g, a[m], h, b[n]);
      IndexIsUnique(d, a[..m], b[..n], begin, a[m].begin);
      assert a == a[..m] + [a[m]] && b == b[..n] + [b[n]];
    } else {
      NonEmptyIsLonger(d, a, begin, end);
      NonEmptyIsLonger(d, b, begin, end);
    }
  }

  lemma {:induction false} NonEmptyIsLonger(d: Bytes, aus: seq<AccessUnit>, begin: nat, end: nat)
    requires Tiles(d, aus, begin, end) && end <= |d|
    ensures begin < end <==> aus != []
  {
    if aus != [] {
      var n := |aus| - 1;
      TilesCover(d, aus[..n], begin, aus[n].begin);
    }
  }

  /** Every delimiter from the first start code on begins an access unit. */
  lemma {:induction false} DelimitersBeginUnits(d: Bytes, aus: seq<AccessUnit>, begin: nat, end: nat, p: nat)
    requires Tiles(d, aus, begin, end) && end <= |d| && DelimiterAt(d, p) && begin < p < end
    ensures exists i | 0 <= i < |aus| :: aus[i].begin == CodeBegin(d, p)
  {
    if aus != [] {
      var n := |aus| - 1;
      var h: nat :| Unit(d, h, aus[n]);
      if p < h {
        HeadersApart(d, p, h);
        DelimitersBeginUnits(d, aus[..n], begin, aus[n].begin, p);
        var i :| 0 <= i < n && aus[..n][i].begin == CodeBegin(d, p);
        assert aus[i].begin == CodeBegin(d, p);
      } else {
        assert p == h;
        assert aus[n].begin == CodeBegin(d, p);
      }
    }
  }
}
