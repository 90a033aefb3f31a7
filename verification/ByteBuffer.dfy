/** The cursor over a byte region (utils/bytebuffer.hpp, bytebuffer_abstract.hpp)
    and the searches it offers, stated on the sequence of bytes searched. */
module Search {
  import opened Bytes
  import opened Results
  import Bits

  predicate MatchAt(s: bytes, p: nat, pat: bytes) {
    p + |pat| <= |s| && s[p..p + |pat|] == pat
  }

  function Masked(b: byte, mask: byte): nat { Bits.And(b, mask) }

  predicate MatchMaskedAt(s: bytes, p: nat, pat: bytes, mask: bytes)
    requires |mask| == |pat|
  {
    p + |pat| <= |s| && forall d :: 0 <= d < |pat| ==> Masked(s[p + d], mask[d]) == pat[d]
  }

  function FindFrom(s: bytes, pat: bytes, from: nat): Option<nat>
    decreases |s| - from
  {
    if from + |pat| > |s| then None
    else if MatchAt(s, from, pat) then Some(from)
    else FindFrom(s, pat, from + 1)
  }

  function FindMaskedFrom(s: bytes, pat: bytes, mask: bytes, from: nat): Option<nat>
    requires |mask| == |pat|
    decreases |s| - from
  {
    if from + |pat| > |s| then None
    else if MatchMaskedAt(s, from, pat, mask) then Some(from)
    else FindMaskedFrom(s, pat, mask, from + 1)
  }

  /** The search answers `r` exactly when `r` is the least match, or no match
      exists and `r` is none. */
  lemma {:induction false} FindFromIsLeast(s: bytes, pat: bytes, from: nat, r: Option<nat>)
    ensures r == FindFrom(s, pat, from) <==>
      match r
      case Some(p) => from <= p && MatchAt(s, p, pat) && forall q :: from <= q < p ==> !MatchAt(s, q, pat)
      case None => forall q :: from <= q ==> !MatchAt(s, q, pat)
    decreases |s| - from
  {
    if from + |pat| <= |s| && !MatchAt(s, from, pat) {
      FindFromIsLeast(s, pat, from + 1, r);
    }
  }

  lemma {:induction false} FindMaskedFromIsLeast(s: bytes, pat: bytes, mask: bytes, from: nat, r: Option<nat>)
    requires |mask| == |pat|
    ensures r == FindMaskedFrom(s, pat, mask, from) <==>
      match r
      case Some(p) =>
        from <= p && MatchMaskedAt(s, p, pat, mask) && forall q :: from <= q < p ==> !MatchMaskedAt(s, q, pat, mask)
      case None => forall q :: from <= q ==> !MatchMaskedAt(s, q, pat, mask)
    decreases |s| - from
  {
    if from + |pat| <= |s| && !MatchMaskedAt(s, from, pat, mask) {
      FindMaskedFromIsLeast(s, pat, mask, from + 1, r);
    }
  }

  /** The position of the first zero byte at or after `from`. */
  function StringEnd(s: bytes, from: nat): (r: Option<nat>)
    ensures r.Some? ==> from <= r.value < |s| && s[r.value] == 0 && 0 !in s[from..r.value]
    ensures r.None? ==> from >= |s| || 0 !in s[from..]
    decreases |s| - from
  {
    if from >= |s| then None
    else if s[from] == 0 then Some(from)
    else StringEnd(s, from + 1)
  }

  /** `Find` adds the cursor twice: it compares the bytes `pointer` further on
      than the position it reports. It reports the least match for every
      contents exactly when the cursor is at the start, the pattern is empty,
      or the pattern does not fit after the starting position. */
  lemma FindIsExactAtStart(pointer: nat, offset: nat, len: nat, pat: bytes)
    ensures
      (forall buf: bytes :: |buf| == pointer + len ==>
        FindFrom(buf[pointer..], pat, pointer + offset) == FindFrom(buf[..len], pat, pointer + offset))
      <==> pointer == 0 || pat == [] || pointer + offset + |pat| > len
  {
    var curr := pointer + offset;
    if pointer == 0 || pat == [] || curr + |pat| > len {
      forall buf: bytes | |buf| == pointer + len
        ensures FindFrom(buf[pointer..], pat, curr) == FindFrom(buf[..len], pat, curr)
      {
        assert pointer == 0 ==> buf[pointer..] == buf[..len];
      }
    } else {
      var buf := WrongBuffer(pointer, curr, len, pat);
      assert MatchAt(buf[pointer..], curr, pat) by {
        assert buf[pointer..][curr..curr + |pat|] == pat;
      }
      assert !MatchAt(buf[..len], curr, pat) by {
        assert buf[..len][curr..curr + |pat|][0] != pat[0];
      }
      FindFromIsLeast(buf[pointer..], pat, curr, Some(curr));
      FindFromIsLeast(buf[..len], pat, curr, Some(curr));
    }
  }

  /** The pattern one cursor too far on, and a different byte where it belongs. */
  function WrongBuffer(pointer: nat, curr: nat, len: nat, pat: bytes): (buf: bytes)
    requires 0 < pointer && pat != [] && curr + |pat| <= len
    ensures |buf| == pointer + len && buf[curr] != pat[0]
    ensures buf[pointer + curr..pointer + curr + |pat|] == pat
  {
    var b: byte := if pat[0] == 0 then 1 else 0;
    seq(pointer + curr, _ => b) + pat + seq(len - curr - |pat|, _ => b)
  }
}

module ByteBuffers {
  import opened Bytes
  import opened Results
  import opened Search
  import Bits

  const CHUNK: nat := 0x400

  class ByteBuffer {
    const buffer: array<byte>
    const len: nat
    var pointer: nat

    ghost predicate Valid()
      reads this
    {
      pointer <= len <= buffer.Length
    }

    /** The region the cursor ranges over. */
    ghost function Region(): bytes
      requires len <= buffer.Length
      reads buffer
    {
      buffer[..len]
    }

    constructor (buffer: array<byte>, len: nat)
      requires len <= buffer.Length
      ensures this.buffer == buffer && this.len == len && pointer == 0
      ensures Valid()
    {
      this.buffer := buffer;
      this.len := len;
      pointer := 0;
    }

    predicate CanRead(size: nat)
      reads this
    {
      pointer + size <= len
    }

    method Goto(loc: nat) returns (ok: bool)
      requires Valid()
      modifies this`pointer
      ensures Valid()
      ensures ok <==> loc <= len
      ensures pointer == if ok then loc else old(pointer)
    {
      if loc > len {
        return false;
      }
      pointer := loc;
      return true;
    }

    /** The location read from, with the cursor moved past it. */
    method ReadPtr(size: nat) returns (r: Option<nat>)
      requires Valid()
      modifies this`pointer
      ensures Valid()
      ensures r == if old(pointer) + size <= len then Some(old(pointer)) else None
      ensures pointer == if r.Some? then old(pointer) + size else old(pointer)
    {
      if !CanRead(size) {
        return None;
      }
      r := Some(pointer);
      pointer := pointer + size;
    }

    /** A zero-terminated string: the start and end positions of its text. */
    method ReadString() returns (r: Option<nat>)
      requires Valid()
      modifies this`pointer
      ensures Valid()
      ensures r == StringEnd(Region(), old(pointer))
      ensures r.Some? ==> pointer == r.value + 1
    {
      while true
        invariant old(pointer) <= pointer <= len
        invariant StringEnd(Region(), old(pointer)) == StringEnd(Region(), pointer)
        decreases len - pointer
      {
        if !CanRead(1) {
          return None;
        }
        var c := buffer[pointer];
        pointer := pointer + 1;
        if c == 0 {
          return Some(pointer - 1);
        }
      }
    }

    /** Reads and drops `n` bytes, a chunk at a time. */
    method Skip(n: nat) returns (ok: bool)
      requires Valid()
      modifies this`pointer
      ensures Valid()
      ensures ok <==> old(pointer) + n <= len
      ensures ok ==> pointer == old(pointer) + n
    {
      var tor := n;
      while tor != 0
        invariant old(pointer) <= pointer <= len
        invariant 0 <= tor && pointer + tor == old(pointer) + n
        decreases tor
      {
        var r: nat := Min(CHUNK, tor);
        if !CanRead(r) {
          return false;
        }
        pointer := pointer + r;
        tor := tor - r;
      }
      return true;
    }

    /** Moves to the least multiple of a power of two at or above the cursor,
        and fails exactly when that is past the end. */
    method Align(val: nat, ghost k: nat) returns (ok: bool)
      requires Valid() && k <= 64 && val == Bits.Pow2(k) && pointer + val <= Bits.WORD
      modifies this`pointer
      ensures Valid()
      ensures ok <==> exists m :: old(pointer) <= m <= len && m % val == 0
      ensures ok ==> pointer % val == 0 && old(pointer) <= pointer
      ensures ok ==> forall m :: old(pointer) <= m && m % val == 0 ==> pointer <= m
      ensures ok ==> pointer == Bits.Aligned(old(pointer), val)
      ensures !ok ==> Bits.Aligned(old(pointer), val) > len
    {
      var l := pointer;
      Bits.AlignedIsLeastMultiple(l, val, k);
      var al := Bits.Aligned(l, val);
      ok := true;
      if l != al {
        ok := Skip(al - l);
      }
    }

    /** The search as written: it compares at `pointer + curr` and reports `curr`. */
    method Find(pat: bytes, offset: nat) returns (r: Option<nat>)
      requires Valid() && pointer + len <= buffer.Length
      ensures r == FindFrom(buffer[pointer..pointer + len], pat, pointer + offset)
    {
      ghost var s := buffer[pointer..pointer + len];
      var curr := pointer + offset;
      while curr + |pat| <= len
        invariant FindFrom(s, pat, pointer + offset) == FindFrom(s, pat, curr)
        decreases len - curr
      {
        var here := buffer[pointer + curr..pointer + curr + |pat|];
        assert here == s[curr..curr + |pat|] by {
          forall k | 0 <= k < |pat|
            ensures here[k] == s[curr..curr + |pat|][k]
          {
            assert s[curr + k] == buffer[pointer + curr + k];
          }
        }
        if here == pat {
          return Some(curr);
        }
        curr := curr + 1;
      }
      return None;
    }

    method FindMasked(pat: bytes, mask: bytes, offset: nat) returns (r: Option<nat>)
      requires Valid() && |mask| == |pat|
      ensures r == FindMaskedFrom(Region(), pat, mask, pointer + offset)
    {
      ghost var s := Region();
      var curr := pointer + offset;
      while curr + |pat| <= len
        invariant FindMaskedFrom(s, pat, mask, pointer + offset) == FindMaskedFrom(s, pat, mask, curr)
        decreases len - curr
      {
        var delta := 0;
        while delta < |pat|
          invariant 0 <= delta <= |pat|
          invariant forall d :: 0 <= d < delta ==> Masked(s[curr + d], mask[d]) == pat[d]
        {
          if Masked(buffer[curr + delta], mask[delta]) != pat[delta] {
            break;
          }
          delta := delta + 1;
        }
        if delta == |pat| {
          return Some(curr);
        }
        assert Masked(s[curr + delta], mask[delta]) != pat[delta];
        curr := curr + 1;
      }
      return None;
    }
  }
}
