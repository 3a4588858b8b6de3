/** Value types shared by the modules of the model. */
module Common {

  type byte = int
  type uint16 = x: int | 0 <= x < 0x1_0000
  type uint32 = x: int | 0 <= x < 0x1_0000_0000
  type Bytes = seq<byte>

  datatype Option<+T> = None | Some(value: T)

  /** Two bytes in network order. */
  function Be16(hi: byte, lo: byte): (r: int) {
    hi * 0x100 + lo
  }

  /** Four bytes in network order. */
  function Be32(a: byte, b: byte, c: byte, d: byte): (r: int) {
    a * 0x100_0000 + b * 0x1_0000 + c * 0x100 + d
  }

  ghost predicate Octets(d: Bytes) {
    forall i | 0 <= i < |d| :: 0 <= d[i] < 0x100
  }

  function Flatten<T>(parts: seq<seq<T>>): seq<T> {
    if parts == [] then [] else parts[0] + Flatten(parts[1..])
  }

  // ----- remainders -----

  lemma Multiple(k: int, n: int)
    requires n > 0
    ensures k >= 1 ==> k * n >= n
    ensures k <= -1 ==> k * n <= -n
  {
  }

  /** Division with remainder is unique. */
  lemma RemainderIs(a: int, n: int, q: int, r: int)
    requires n > 0 && a == q * n + r && 0 <= r < n
    ensures a % n == r && a / n == q
  {
    var k := q - a / n;
    assert k * n == a % n - r;
    Multiple(k, n);
  }

  lemma SliceSnoc<T>(s: seq<T>, lo: nat, hi: nat)
    requires lo <= hi < |s|
    ensures s[lo..hi] + [s[hi]] == s[lo..hi + 1]
  {
  }
}
