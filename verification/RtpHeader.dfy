/** The RTP fixed header parser against the packet layout of section 5.1 of RFC 3550. */
module RtpHeader {
  import opened Common

  datatype Extension = Extension(profile: Bytes, words: Bytes)

  /** An RTP packet as its sender sees it. `padding` is what follows the payload when the P bit is set. */
  datatype Rtp = Rtp(
    marker: bool, pt: nat, seqNo: uint16, ts: uint32, ssrc: uint32, csrcs: Bytes, extension: Option<Extension>,
    payload: Bytes, padding: Option<Bytes>)
  {
    function Cc(): nat {
      |csrcs| / 4
    }

    function FixedHeader(): (r: Bytes)
      ensures |r| == 12
    {
      [128 + (if padding.Some? then 32 else 0) + (if extension.Some? then 16 else 0) + Cc(),
       (if marker then 128 else 0) + pt, seqNo / 0x100, seqNo % 0x100,
       ts / 0x100_0000, ts / 0x1_0000 % 0x100, ts / 0x100 % 0x100, ts % 0x100,
       ssrc / 0x100_0000, ssrc / 0x1_0000 % 0x100, ssrc / 0x100 % 0x100, ssrc % 0x100]
    }

    function ExtensionBytes(): Bytes {
      match extension
      case None => []
      case Some(e) => e.profile + [|e.words| / 4 / 0x100, |e.words| / 4 % 0x100] + e.words
    }

    function Wire(): Bytes {
      FixedHeader() + csrcs + ExtensionBytes() + payload + if padding.Some? then padding.value else []
    }

    /** The field sizes; the last byte of a packet with padding is the length of the padding. */
    ghost predicate Valid() {
      && pt < 128
      && |csrcs| % 4 == 0 && Cc() < 16
      && (extension.Some? ==>
            |extension.value.profile| == 2 && |extension.value.words| % 4 == 0 &&
                |extension.value.words| / 4 < 0x1_0000)
      && (padding.Some? ==> var d := Wire(); d[|d| - 1] == |padding.value|)
      && Octets(Wire())
    }
  }

  /** What `ParseRtp` reports. */
  datatype Header = Header(
    pt: nat, marker: bool, cc: nat, x: bool, p: bool, seqNo: int, ts: int, ssrc: int, hdrLen: nat, padLen: nat,
    payload: Bytes)

  function HeaderOf(f: Rtp): Header {
    Header(f.pt, f.marker, f.Cc(), f.extension.Some?, f.padding.Some?, f.seqNo, f.ts, f.ssrc,
           12 + |f.csrcs| + |f.ExtensionBytes()|, if f.padding.Some? then |f.padding.value| else 0, f.payload)
  }

  lemma ReadWord(n: uint32)
    ensures Be32(n / 0x100_0000, n / 0x1_0000 % 0x100, n / 0x100 % 0x100, n % 0x100) == n
  {
    assert n == n / 0x100 * 0x100 + n % 0x100;
    assert n / 0x100 == n / 0x1_0000 * 0x100 + n / 0x100 % 0x100;
    assert n / 0x1_0000 == n / 0x100_0000 * 0x100 + n / 0x1_0000 % 0x100;
  }

  lemma WriteWord(a: byte, b: byte, c: byte, d: byte)
    requires 0 <= a < 0x100 && 0 <= b < 0x100 && 0 <= c < 0x100 && 0 <= d < 0x100
    ensures var n := Be32(a, b, c, d);
            && 0 <= n < 0x1_0000_0000
            && n / 0x100_0000 == a && n / 0x1_0000 % 0x100 == b && n / 0x100 % 0x100 == c && n % 0x100 == d
  {
    var n := Be32(a, b, c, d);
    assert n / 0x100 == a * 0x1_0000 + b * 0x100 + c;
    assert n / 0x1_0000 == a * 0x100 + b;
  }

  /** The CSRC count, and where the header extension starts and how long it is. */
  ghost function CsrcEnd(d: Bytes): nat
    requires |d| >= 12 && Octets(d)
  {
    12 + 4 * (d[0] % 16)
  }

  ghost predicate HasExtension(d: Bytes)
    requires |d| >= 12
  {
    d[0] / 16 % 2 == 1
  }

  ghost function HeaderEnd(d: Bytes): nat
    requires |d| >= 12 && Octets(d)
    requires HasExtension(d) ==> CsrcEnd(d) + 4 <= |d|
  {
    var c := CsrcEnd(d);
    if HasExtension(d) then c + 4 + 4 * Be16(d[c + 2], d[c + 3]) else c
  }

  ghost function PadLen(d: Bytes): nat
    requires |d| >= 12 && Octets(d)
  {
    if d[0] / 32 % 2 == 1 then d[|d| - 1] else 0
  }

  /** The tests that the parser makes. */
  ghost predicate Parses(d: Bytes)
    requires Octets(d)
  {
    && |d| >= 12 && d[0] / 64 == 2
    && (HasExtension(d) ==> CsrcEnd(d) + 4 <= |d|)
    && HeaderEnd(d) <= |d|
    && PadLen(d) <= |d| - HeaderEnd(d)
  }

  /** The fields that are read from the wire. */
  ghost function Read(d: Bytes): Rtp
    requires Octets(d) && Parses(d)
  {
    var c, e, n := CsrcEnd(d), HeaderEnd(d), |d| - PadLen(d);
    WriteWord(d[4], d[5], d[6], d[7]);
    WriteWord(d[8], d[9], d[10], d[11]);
    Rtp(d[1] / 128 == 1, d[1] % 128, Be16(d[2], d[3]), Be32(d[4], d[5], d[6], d[7]), Be32(d[8], d[9], d[10], d[11]),
        d[12..c], if HasExtension(d) then Some(Extension(d[c..c + 2], d[c + 4..e])) else None,
        d[e..n], if d[0] / 32 % 2 == 1 then Some(d[n..]) else None)
  }

  /** The first byte holds the version, two flags and the CSRC count. */
  lemma FirstByte(b: byte)
    requires 0 <= b < 0x100 && b / 64 == 2
    ensures b == 128 + (if b / 32 % 2 == 1 then 32 else 0) + (if b / 16 % 2 == 1 then 16 else 0) + b % 16
  {
  }

  lemma ReadFixed(d: Bytes)
    requires Octets(d) && Parses(d)
    ensures Read(d).FixedHeader() == d[..12]
  {
    FirstByte(d[0]);
    WriteWord(d[4], d[5], d[6], d[7]);
    WriteWord(d[8], d[9], d[10], d[11]);
  }

  lemma ExtensionSlices(d: Bytes, c: nat, e: nat)
    requires c + 4 <= e <= |d|
    ensures d[c..e] == d[c..c + 2] + [d[c + 2], d[c + 3]] + d[c + 4..e]
  {
  }

  lemma ReadExtension(d: Bytes)
    requires Octets(d) && Parses(d)
    ensures Read(d).ExtensionBytes() == d[CsrcEnd(d)..HeaderEnd(d)]
  {
    ExtensionBytesAre(Read(d), d, CsrcEnd(d), HeaderEnd(d));
  }

  lemma ExtensionBytesAre(f: Rtp, d: Bytes, c: nat, e: nat)
    requires Octets(d) && c <= e <= |d|
    requires f.extension.None? ==> e == c
    requires f.extension.Some? ==> c + 4 <= e && e == c + 4 + 4 * Be16(d[c + 2], d[c + 3])
    requires f.extension.Some? ==> f.extension.value == Extension(d[c..c + 2], d[c + 4..e])
    ensures f.ExtensionBytes() == d[c..e]
  {
    hide Be16;
    if f.extension.Some? {
      ExtensionSlices(d, c, e);
      SizeBytes(d[c + 2], d[c + 3]);
    }
  }

  lemma SizeBytes(hi: byte, lo: byte)
    requires 0 <= lo < 0x100
    ensures Be16(hi, lo) / 0x100 == hi && Be16(hi, lo) % 0x100 == lo
  {
  }

  lemma SlicesOf(d: Bytes, c: nat, e: nat, n: nat)
    requires 12 <= c <= e <= n <= |d|
    ensures d == d[..12] + d[12..c] + d[c..e] + d[e..n] + d[n..] && d[|d|..] == []
  {
  }

  lemma ReadWire(d: Bytes)
    requires Octets(d) && Parses(d)
    ensures Read(d).Wire() == d
  {
    hide Rtp.FixedHeader, Rtp.ExtensionBytes, Be32;
    ReadFixed(d);
    ReadExtension(d);
    SlicesOf(d, CsrcEnd(d), HeaderEnd(d), |d| - PadLen(d));
  }

  /** Whatever parses is the wire form of the fields read from it. */
  lemma ReadIsWire(d: Bytes)
    requires Octets(d) && Parses(d)
    ensures Read(d).Valid() && Read(d).Wire() == d
  {
    hide Rtp.Wire, Be32;
    ReadWire(d);
  }

  /** The fixed header gives back the fields in it. */
  lemma FixedIsRead(f: Rtp)
    requires f.Valid()
    ensures var d := f.FixedHeader();
            && Octets(d) && d[0] / 64 == 2 && d[0] % 16 == f.Cc()
            && (d[0] / 32 % 2 == 1 <==> f.padding.Some?) && (d[0] / 16 % 2 == 1 <==> f.extension.Some?)
            && (d[1] / 128 == 1 <==> f.marker) && d[1] % 128 == f.pt && Be16(d[2], d[3]) == f.seqNo
            && Be32(d[4], d[5], d[6], d[7]) == f.ts && Be32(d[8], d[9], d[10], d[11]) == f.ssrc
  {
    ReadWord(f.ts);
    ReadWord(f.ssrc);
  }

  /** Where the parts are. */
  lemma WireSlices(f: Rtp)
    ensures var d, c := f.Wire(), 12 + |f.csrcs|;
            var e := c + |f.ExtensionBytes()|;
            var n := e + |f.payload|;
            && n <= |d| && d[..12] == f.FixedHeader() && d[12..c] == f.csrcs && d[c..e] == f.ExtensionBytes()
            && d[e..n] == f.payload && d[n..] == (if f.padding.Some? then f.padding.value else [])
  {
    hide Rtp.FixedHeader, Rtp.ExtensionBytes;
  }

  lemma ExtensionIsRead(f: Rtp, d: Bytes, c: nat, e: nat)
    requires f.Valid() && f.extension.Some? && c <= e <= |d| && d[c..e] == f.ExtensionBytes()
    ensures c + 4 <= e && e == c + 4 + 4 * Be16(d[c + 2], d[c + 3])
    ensures d[c..c + 2] == f.extension.value.profile && d[c + 4..e] == f.extension.value.words
  {
    var x := f.extension.value;
    var b := d[c..e];
    assert b[..2] == x.profile && b[4..] == x.words;
    assert b[2] == d[c + 2] && b[3] == d[c + 3];
    assert b[..2] == d[c..c + 2] && b[4..] == d[c + 4..e];
  }

  lemma PrefixBytes(d: Bytes, h: Bytes)
    requires |d| >= 12 && d[..12] == h
    ensures forall i | 0 <= i < 12 :: d[i] == h[i]
  {
  }

  /** The wire form of any fields passes the parser's tests, and its parts are where they were put. */
  lemma WireParses(f: Rtp)
    requires f.Valid()
    ensures var d, c := f.Wire(), 12 + |f.csrcs|;
            && Parses(d) && CsrcEnd(d) == c && HeaderEnd(d) == c + |f.ExtensionBytes()|
            && PadLen(d) == |d| - HeaderEnd(d) - |f.payload| && (HasExtension(d) <==> f.extension.Some?)
            && (d[0] / 32 % 2 == 1 <==> f.padding.Some?)
  {
    hide Rtp.FixedHeader, Rtp.ExtensionBytes, Be16, Be32;
    var d := f.Wire();
    var c := 12 + |f.csrcs|;
    FixedIsRead(f);
    WireSlices(f);
    PrefixBytes(d, f.FixedHeader());
    if f.extension.Some? {
      ExtensionIsRead(f, d, c, c + |f.ExtensionBytes()|);
    } else {
      NoExtension(f);
    }
  }

  /** The wire form of any fields parses, and to those fields. */
  lemma WireIsRead(f: Rtp)
    requires f.Valid()
    ensures var d := f.Wire(); Parses(d) && Read(d) == f
  {
    WireParses(f);
    hide Rtp.FixedHeader, Rtp.ExtensionBytes, Rtp.Wire, Be16, Be32, Parses, CsrcEnd, HeaderEnd, PadLen;
    var d := f.Wire();
    FixedIsRead(f);
    WireSlices(f);
    PrefixBytes(d, f.FixedHeader());
    if f.extension.Some? {
      ExtensionIsRead(f, d, CsrcEnd(d), HeaderEnd(d));
    }
  }

  lemma NoExtension(f: Rtp)
    requires f.extension.None?
    ensures f.ExtensionBytes() == []
  {
  }

  lemma HeaderOfRead(d: Bytes)
    requires Octets(d) && Parses(d)
    ensures HeaderOf(Read(d))
         == Header(d[1] % 128, d[1] / 128 == 1, d[0] % 16, HasExtension(d), d[0] / 32 % 2 == 1, Be16(d[2], d[3]),
                   Be32(d[4], d[5], d[6], d[7]), Be32(d[8], d[9], d[10], d[11]),
                   HeaderEnd(d), PadLen(d), d[HeaderEnd(d)..|d| - PadLen(d)])
  {
    hide Be32, Rtp.ExtensionBytes;
    ReadExtension(d);
  }

  /**
   Strict parsing: a datagram is accepted if and only if it is the wire form of some packet, and what is reported is
   that packet's header and payload.
   */
  method ParseRtp(d: Bytes) returns (ok: bool, h: Header)
    requires Octets(d)
    ensures ok <==> exists f: Rtp :: f.Valid() && f.Wire() == d
    ensures forall f: Rtp | f.Valid() && f.Wire() == d :: h == HeaderOf(f)
  {
    hide Read, HeaderOf, Be32, Rtp.Wire, Rtp.Valid;
    h := Header(0, false, 0, false, false, 0, 0, 0, 0, 0, []);
    var n := |d|;
    if n < 12 || d[0] / 64 != 2 {
      ok := false;
    } else {
      h := h.(p := d[0] / 32 % 2 == 1, x := d[0] / 16 % 2 == 1, cc := d[0] % 16);
      h := h.(marker := d[1] / 128 == 1, pt := d[1] % 128);
      h := h.(seqNo := Be16(d[2], d[3]), ts := Be32(d[4], d[5], d[6], d[7]), ssrc := Be32(d[8], d[9], d[10], d[11]));
      var len := 12 + 4 * h.cc;
      ok := !h.x || len + 4 <= n;
      if ok && h.x {
        len := len + 4 + 4 * Be16(d[len + 2], d[len + 3]);
      }
      ok := ok && len <= n;
      if ok {
        var pad := if h.p then d[n - 1] else 0;
        h := h.(hdrLen := len, padLen := pad);
        ok := pad <= n - len;
        if ok {
          h := h.(payload := d[len..n - pad]);
        }
      }
    }
    assert ok <==> Parses(d);
    if ok {
      ReadIsWire(d);
      HeaderOfRead(d);
    }
    forall f: Rtp | f.Valid() && f.Wire() == d
      ensures ok && f == Read(d)
    {
      WireIsRead(f);
    }
  }

  // ----- padding of length zero -----

  ghost predicate IsWire(d: Bytes) {
    exists f: Rtp :: f.Valid() && f.Wire() == d
  }

  /** As section 5.1 of RFC 3550 has it: padding counts its own last byte, so that there is at least that one. */
  ghost predicate IsConforming(d: Bytes) {
    exists f: Rtp :: f.Valid() && f.padding != Some([]) && f.Wire() == d
  }

  /** What is accepted conforms to the standard exactly when it does not have the P bit and a last byte of zero. */
  lemma ConformsIff(d: Bytes)
    requires Octets(d)
    ensures IsConforming(d) <==> IsWire(d) && !(d[0] / 32 % 2 == 1 && d[|d| - 1] == 0)
    ensures IsWire(d) && !IsConforming(d) <==> Parses(d) && d[0] / 32 % 2 == 1 && d[|d| - 1] == 0
  {
    hide Rtp.Wire, Rtp.Valid, Rtp.FixedHeader, Rtp.ExtensionBytes, Be16, Be32;
    forall f: Rtp | f.Valid() && f.Wire() == d
      ensures Parses(d) && f == Read(d)
    {
      WireIsRead(f);
    }
    if Parses(d) {
      ReadIsWire(d);
      assert d[0] / 32 % 2 == 1 ==> |Read(d).padding.value| == d[|d| - 1];
    }
  }

  /** A header without payload, with the P bit and an SSRC that ends in a zero byte. */
  const BARE_PADDED_HEADER: Bytes := [160, 96, 0, 1, 0, 0, 0, 0, 0, 0, 7, 0]

  /** It is accepted, and does not conform. */
  lemma BarePaddingIsAccepted()
    ensures IsWire(BARE_PADDED_HEADER) && !IsConforming(BARE_PADDED_HEADER)
  {
    hide IsWire, IsConforming, Rtp.Wire, Rtp.Valid, Read;
    ConformsIff(BARE_PADDED_HEADER);
  }
}
