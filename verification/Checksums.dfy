/** Export checksums: a fold of an unspecified step over the code bytes, the
    search for a length that matches, and what a later search finds. */
module Checksums {
  import opened Bytes

  datatype Crc32 = Crc32(init: u32, step: (u32, byte) -> u32, final: u32 -> u32)

  function Fold(crc: Crc32, s: bytes): u32
    decreases |s|
  {
    if s == [] then crc.init else crc.step(Fold(crc, s[..|s| - 1]), s[|s| - 1])
  }

  /** The checksum of `len` bytes from `bc`. */
  function Checksum(crc: Crc32, s: bytes, bc: nat, len: nat): u32
    requires bc + len <= |s|
  {
    crc.final(Fold(crc, s[bc..bc + len]))
  }

  /** The checksum is what the last of the running states finishes to, starting with the
      initial one and stepping over the bytes in order. */
  lemma {:induction false} ChecksumByStates(crc: Crc32, s: bytes, bc: nat, len: nat, st: seq<u32>)
    requires bc + len <= |s| && |st| == len + 1 && st[0] == crc.init
    requires forall i :: 0 <= i < len ==> st[i + 1] == crc.step(st[i], s[bc + i])
    ensures Checksum(crc, s, bc, len) == crc.final(st[len])
  {
    FoldByStates(crc, s[bc..bc + len], st);
  }

  lemma {:induction false} FoldByStates(crc: Crc32, t: bytes, st: seq<u32>)
    requires |st| == |t| + 1 && st[0] == crc.init
    requires forall i :: 0 <= i < |t| ==> st[i + 1] == crc.step(st[i], t[i])
    ensures Fold(crc, t) == st[|t|]
    decreases |t|
  {
    if t != [] {
      FoldByStates(crc, t[..|t| - 1], st[..|t|]);
    }
  }

  /** The first length from `len` on whose checksum is `want`, or zero. */
  function LeastLength(crc: Crc32, s: bytes, bc: nat, want: u32, len: nat): nat
    decreases |s| - len
  {
    if bc + len > |s| then 0
    else if Checksum(crc, s, bc, len) == want then len
    else LeastLength(crc, s, bc, want, len + 1)
  }

  predicate Matches(crc: Crc32, s: bytes, bc: nat, want: u32, len: nat) {
    bc + len <= |s| && Checksum(crc, s, bc, len) == want
  }

  /** The search answers the least positive matching length, or zero when none. */
  lemma {:induction false} LeastLengthIsLeast(crc: Crc32, s: bytes, bc: nat, want: u32, len: nat, r: nat)
    requires len >= 1
    ensures r == LeastLength(crc, s, bc, want, len) <==>
      if r == 0 then forall l :: len <= l ==> !Matches(crc, s, bc, want, l)
      else len <= r && Matches(crc, s, bc, want, r) && forall l :: len <= l < r ==> !Matches(crc, s, bc, want, l)
    decreases |s| - len
  {
    if bc + len <= |s| && !Matches(crc, s, bc, want, len) {
      LeastLengthIsLeast(crc, s, bc, want, len + 1, r);
    }
  }

  /** A later search for the checksum of the final `n` bytes stops at `n` or
      before; for one byte it answers exactly 1. */
  lemma SearchFindsRecorded(crc: Crc32, s: bytes, bc: nat, n: nat)
    requires 1 <= n && bc + n <= |s|
    ensures var r := LeastLength(crc, s, bc, Checksum(crc, s, bc, n), 1);
      && 1 <= r <= n && Matches(crc, s, bc, Checksum(crc, s, bc, n), r)
      && forall l :: 1 <= l < r ==> !Matches(crc, s, bc, Checksum(crc, s, bc, n), l)
  {
    var want := Checksum(crc, s, bc, n);
    assert Matches(crc, s, bc, want, n);
    LeastLengthIsLeast(crc, s, bc, want, 1, LeastLength(crc, s, bc, want, 1));
  }

  /** Bytes outside the range do not change its checksum. */
  lemma ChecksumFrame(crc: Crc32, s: bytes, t: bytes, bc: nat, len: nat)
    requires |s| == |t| && bc + len <= |s|
    requires forall k :: bc <= k < bc + len ==> s[k] == t[k]
    ensures Checksum(crc, s, bc, len) == Checksum(crc, t, bc, len)
  {
    assert s[bc..bc + len] == t[bc..bc + len];
  }

  method ComputeCRC32(crc: Crc32, data: array<byte>, bc: nat, len: nat) returns (r: u32)
    requires bc + len <= data.Length
    ensures r == Checksum(crc, data[..], bc, len)
  {
    var state := crc.init;
    for i := 0 to len
      invariant state == Fold(crc, data[bc..bc + i])
    {
      assert data[bc..bc + i + 1][..i] == data[bc..bc + i];
      state := crc.step(state, data[bc + i]);
    }
    assert data[..][bc..bc + len] == data[bc..bc + len];
    r := crc.final(state);
  }

  method FindExportSizeByCrc(crc: Crc32, data: array<byte>, bc: nat, want: u32) returns (r: nat)
    ensures r == LeastLength(crc, data[..], bc, want, 1)
  {
    var len := 1;
    while bc + len <= data.Length
      invariant 1 <= len
      invariant LeastLength(crc, data[..], bc, want, 1) == LeastLength(crc, data[..], bc, want, len)
      decreases data.Length - len
    {
      var c := ComputeCRC32(crc, data, bc, len);
      if c == want {
        return len;
      }
      len := len + 1;
    }
    return 0;
  }
}
