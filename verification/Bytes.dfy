/** Fixed-width integers and the little-endian fields the program reads and
    writes through cast pointers. A buffer is seen as a sequence of bytes. */
module Bytes {
  type byte = b: int | 0 <= b < 0x100
  type u16 = v: int | 0 <= v < 0x1_0000
  type u32 = v: int | 0 <= v < 0x1_0000_0000
  type u64 = v: int | 0 <= v < 0x1_0000_0000_0000_0000

  type bytes = seq<byte>

  const WORD32: nat := 0x1_0000_0000

  function Min(a: int, b: int): int { if a <= b then a else b }

  function Max(a: int, b: int): int { if a <= b then b else a }

  function Get16(s: bytes, o: nat): u16
    requires o + 2 <= |s|
  {
    s[o] as int + 0x100 * s[o + 1] as int
  }

  function Get32(s: bytes, o: nat): u32
    requires o + 4 <= |s|
  {
    s[o] as int + 0x100 * s[o + 1] as int + 0x1_0000 * s[o + 2] as int + 0x100_0000 * s[o + 3] as int
  }

  function Get64(s: bytes, o: nat): u64
    requires o + 8 <= |s|
  {
    Get32(s, o) + 0x1_0000_0000 * Get32(s, o + 4)
  }

  /** The value of a 16-bit field read as a two's complement number. */
  function Signed16(v: u16): (r: int)
    ensures -0x8000 <= r <= 0x7fff
    ensures (r - v) % 0x1_0000 == 0
  {
    if v < 0x8000 then v else v - 0x1_0000
  }

  function Signed32(v: u32): (r: int)
    ensures -0x8000_0000 <= r <= 0x7fff_ffff
    ensures (r - v) % 0x1_0000_0000 == 0
  {
    if v < 0x8000_0000 then v else v - 0x1_0000_0000
  }

  lemma Digits(v: u32)
    ensures v / 0x100_0000 < 0x100
    ensures v == v % 0x100 + 0x100 * (v / 0x100 % 0x100) + 0x1_0000 * (v / 0x1_0000 % 0x100) + 0x100_0000 * (v / 0x100_0000)
  {
    var a, b, c := v / 0x100, v / 0x1_0000, v / 0x100_0000;
    assert v == 0x100 * a + v % 0x100;
    assert a / 0x100 == b && b / 0x100 == c;
    assert a == 0x100 * b + a % 0x100;
    assert b == 0x100 * c + b % 0x100;
  }

  function Le32(v: u32): (r: bytes)
    ensures |r| == 4 && Get32(r, 0) == v
  {
    Digits(v);
    [v % 0x100, v / 0x100 % 0x100, v / 0x1_0000 % 0x100, v / 0x100_0000]
  }

  function Put16(s: bytes, o: nat, v: u16): (r: bytes)
    requires o + 2 <= |s|
    ensures |r| == |s| && Get16(r, o) == v
    ensures forall k :: 0 <= k < |s| && !(o <= k < o + 2) ==> r[k] == s[k]
  {
    s[o := v % 0x100][o + 1 := v / 0x100]
  }

  function Put32(s: bytes, o: nat, v: u32): (r: bytes)
    requires o + 4 <= |s|
    ensures |r| == |s| && Get32(r, o) == v
    ensures forall k :: 0 <= k < |s| && !(o <= k < o + 4) ==> r[k] == s[k]
  {
    var b := Le32(v);
    s[o := b[0]][o + 1 := b[1]][o + 2 := b[2]][o + 3 := b[3]]
  }

  /** `data` copied over the bytes at `at`. */
  function Over(s: bytes, at: nat, data: bytes): (r: bytes)
    requires at + |data| <= |s|
    ensures |r| == |s|
  {
    s[..at] + data + s[at + |data|..]
  }

  function Zeros(n: nat): (r: bytes)
    ensures |r| == n && forall k :: 0 <= k < n ==> r[k] == 0
  {
    seq(n, _ => 0)
  }

  lemma LowDigit(a: byte, x: int, b: byte, y: int)
    requires a + 0x100 * x == b + 0x100 * y
    ensures a == b && x == y
  {
  }

  lemma SliceOfSlice<T>(s: seq<T>, a: nat, b: nat, c: nat, d: nat)
    requires a <= b <= |s| && c <= d <= b - a
    ensures s[a..b][c..d] == s[a + c..a + d]
  {
    assert |s[a..b][c..d]| == |s[a + c..a + d]|;
    forall k | 0 <= k < d - c
      ensures s[a..b][c..d][k] == s[a + c..a + d][k]
    {
    }
  }

  /** A field determines its four bytes. */
  lemma Get32Injective(s: bytes, o: nat, t: bytes, p: nat)
    requires o + 4 <= |s| && p + 4 <= |t|
    ensures Get32(s, o) == Get32(t, p) <==> s[o..o + 4] == t[p..p + 4]
  {
    var a, b := s[o..o + 4], t[p..p + 4];
    assert a == [s[o], s[o + 1], s[o + 2], s[o + 3]];
    assert b == [t[p], t[p + 1], t[p + 2], t[p + 3]];
    if Get32(s, o) == Get32(t, p) {
      var x, y := s[o + 2] as int + 0x100 * s[o + 3] as int, t[p + 2] as int + 0x100 * t[p + 3] as int;
      LowDigit(s[o], s[o + 1] as int + 0x100 * x, t[p], t[p + 1] as int + 0x100 * y);
      LowDigit(s[o + 1], x, t[p + 1], y);
      LowDigit(s[o + 2], s[o + 3], t[p + 2], t[p + 3]);
    }
  }

  lemma Get64Injective(s: bytes, o: nat, t: bytes, p: nat)
    requires o + 8 <= |s| && p + 8 <= |t|
    ensures Get64(s, o) == Get64(t, p) <==> s[o..o + 8] == t[p..p + 8]
  {
    hide Get32;
    Get32Injective(s, o, t, p);
    Get32Injective(s, o + 4, t, p + 4);
    var a, b := s[o..o + 8], t[p..p + 8];
    assert a == s[o..o + 4] + s[o + 4..o + 8] && a[..4] == s[o..o + 4] && a[4..] == s[o + 4..o + 8];
    assert b == t[p..p + 4] + t[p + 4..p + 8] && b[..4] == t[p..p + 4] && b[4..] == t[p + 4..p + 8];
  }

  /** Writing back the value already there changes nothing. */
  lemma Put32Same(s: bytes, o: nat)
    requires o + 4 <= |s|
    ensures Put32(s, o, Get32(s, o)) == s
  {
    var r := Put32(s, o, Get32(s, o));
    Get32Injective(s, o, r, o);
    forall k | 0 <= k < |s|
      ensures r[k] == s[k]
    {
      if o <= k < o + 4 {
        assert r[k] == r[o..o + 4][k - o] && s[k] == s[o..o + 4][k - o];
      }
    }
  }

  lemma Put32Elsewhere(s: bytes, o: nat, v: u32, p: nat)
    requires o + 4 <= |s| && p + 4 <= |s| && (o + 4 <= p || p + 4 <= o)
    ensures Get32(Put32(s, o, v), p) == Get32(s, p)
  {
  }

  lemma SameField(a: bytes, b: bytes, at: nat)
    requires at + 4 <= |a| == |b| && forall k :: at <= k < at + 4 ==> a[k] == b[k]
    ensures Get32(a, at) == Get32(b, at)
  {
  }

  lemma SameField16(a: bytes, b: bytes, at: nat)
    requires at + 2 <= |a| == |b| && a[at] == b[at] && a[at + 1] == b[at + 1]
    ensures Get16(a, at) == Get16(b, at)
  {
  }

  method Read16(a: array<byte>, o: nat) returns (v: u16)
    requires o + 2 <= a.Length
    ensures v == Get16(a[..], o)
  {
    v := a[o] as int + 0x100 * a[o + 1] as int;
  }

  method Read32(a: array<byte>, o: nat) returns (v: u32)
    requires o + 4 <= a.Length
    ensures v == Get32(a[..], o)
  {
    v := a[o] as int + 0x100 * a[o + 1] as int + 0x1_0000 * a[o + 2] as int + 0x100_0000 * a[o + 3] as int;
  }

  method Write16(a: array<byte>, o: nat, v: u16)
    requires o + 2 <= a.Length
    modifies a
    ensures a[..] == Put16(old(a[..]), o, v)
  {
    a[o] := v % 0x100;
    a[o + 1] := v / 0x100;
  }

  method Write32(a: array<byte>, o: nat, v: u32)
    requires o + 4 <= a.Length
    modifies a
    ensures a[..] == Put32(old(a[..]), o, v)
  {
    a[o], a[o + 1] := v % 0x100, v / 0x100 % 0x100;
    a[o + 2], a[o + 3] := v / 0x1_0000 % 0x100, v / 0x100_0000;
  }
}
