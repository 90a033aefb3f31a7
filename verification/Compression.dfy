/** Block compression (utils/compress_utils.cpp). The uncompressed branches are
    written out; the libraries behind the others are parameters. */
module Compression {
  import opened Bytes
  import opened Results

  /** A type in the low byte and options above it. */
  type Algorithm = nat

  const COMP_NONE: Algorithm := 1
  const COMP_ZLIB: Algorithm := 2
  const COMP_LZ4: Algorithm := 4
  const COMP_OODLE: Algorithm := 5
  const COMP_HIGH_COMPRESSION: nat := 0x100
  const COMP_OODLE_TYPE_KRAKEN: nat := 0
  const COMP_OODLE_TYPE_LZNA: nat := 0x1000
  const COMP_OODLE_TYPE_MERMAID: nat := 0x1200
  const COMP_OODLE_TYPE_SELKIE: nat := 0x1600

  const DCOMP_DEST_TOO_SMALL: int := -2
  const DCOMP_UNKNOWN_ERROR: int := -3

  function CompressionType(alg: Algorithm): nat { alg % 0x100 }

  /** What the libraries do: the space a compressed block may need, the
      compressed block, and the new contents of a destination. */
  datatype Libraries = Libraries(
    bound: (Algorithm, nat) -> nat,
    compress: (Algorithm, bytes) -> Option<bytes>,
    decompress: (Algorithm, bytes, bytes) -> Option<bytes>)

  /** Compression stays within its bound, decompression within its destination. */
  ghost predicate Sound(lib: Libraries) {
    && (forall a, s :: lib.compress(a, s).Some? ==> |lib.compress(a, s).value| <= lib.bound(a, |s|))
    && forall a, d, s :: lib.decompress(a, d, s).Some? ==> |lib.decompress(a, d, s).value| == |d|
  }

  /** The conversion of a size to the `int` that is returned. */
  function AsInt(n: nat): int { Signed32(n % 0x1_0000_0000) }

  function Compressed(lib: Libraries, alg: Algorithm, src: bytes): Option<bytes> {
    if CompressionType(alg) == COMP_NONE then Some(src) else lib.compress(alg, src)
  }

  function Decompressed(lib: Libraries, alg: Algorithm, dest: bytes, src: bytes): (r: Option<bytes>)
    requires Sound(lib)
    ensures r.Some? ==> |r.value| == |dest|
  {
    if CompressionType(alg) == COMP_NONE then
      if |dest| < |src| || AsInt(|src|) < 0 then None else Some(src + dest[|src|..])
    else lib.decompress(alg, dest, src)
  }

  /** Without a library a block is copied to the front of its destination, whose rest
      stays; it is refused when it is longer, or when its size is negative as an `int`. */
  lemma NoneDecompresses(lib: Libraries, alg: Algorithm, dest: bytes, src: bytes)
    requires Sound(lib) && alg % 0x100 == 1
    ensures var r := Decompressed(lib, alg, dest, src);
      && (r.Some? <==> |src| <= |dest| && |src| % 0x1_0000_0000 < 0x8000_0000)
      && (r.Some? ==> r.value[..|src|] == src && r.value[|src|..] == dest[|src|..])
  {
  }

  /** Decompression undoes the compression of every block of at most `n` bytes. */
  ghost predicate Undoes(lib: Libraries, alg: Algorithm, n: nat)
    requires Sound(lib)
  {
    forall dest, src :: |dest| == |src| <= n && Compressed(lib, alg, src).Some? ==>
      Decompressed(lib, alg, dest, Compressed(lib, alg, src).value) == Some(src)
  }

  /** Uncompressed blocks come back exactly below two gigabytes: a larger size
      is negative as an `int`, which reads as an error. */
  lemma NoneUndoesIff(lib: Libraries, alg: Algorithm, n: nat)
    requires Sound(lib) && CompressionType(alg) == COMP_NONE
    ensures Undoes(lib, alg, n) <==> n < 0x8000_0000
  {
    if n < 0x8000_0000 {
      forall dest: bytes, src: bytes | |dest| == |src| <= n
        ensures Decompressed(lib, alg, dest, src) == Some(src)
      {
        assert src + dest[|src|..] == src;
      }
    } else {
      var src := Zeros(0x8000_0000);
      assert Compressed(lib, alg, src) == Some(src);
      assert Decompressed(lib, alg, src, src).None?;
    }
  }

  /** Decompresses into `dest[at..at + destSize]`; a negative result is an error. */
  method Decompress2(lib: Libraries, alg: Algorithm, dest: array<byte>, at: nat, destSize: nat, src: bytes)
    returns (r: int)
    requires Sound(lib) && at + destSize <= dest.Length
    modifies dest
    ensures r >= 0 <==> Decompressed(lib, alg, old(dest[..])[at..at + destSize], src).Some?
    ensures r >= 0 ==>
      dest[..] == Over(old(dest[..]), at, Decompressed(lib, alg, old(dest[..])[at..at + destSize], src).value)
  {
    ghost var s := dest[..];
    if CompressionType(alg) == COMP_NONE {
      if destSize < |src| {
        return DCOMP_DEST_TOO_SMALL;
      }
      forall i | 0 <= i < |src| {
        dest[at + i] := src[i];
      }
      assert dest[..] == Over(s, at, src + s[at..at + destSize][|src|..]);
      return AsInt(|src|);
    }
    assert dest[at..at + destSize] == s[at..at + destSize];
    var d := lib.decompress(alg, dest[at..at + destSize], src);
    if d.None? {
      return DCOMP_UNKNOWN_ERROR;
    }
    forall i | 0 <= i < destSize {
      dest[at + i] := d.value[i];
    }
    return 0;
  }

  /** Compresses into the first `destSize` bytes of `dest`, and says how many it used. */
  method Compress(lib: Libraries, alg: Algorithm, dest: array<byte>, destSize: nat, src: bytes)
    returns (size: Option<nat>)
    requires destSize <= dest.Length
    modifies dest
    ensures
      var z := Compressed(lib, alg, src);
      if z.Some? && |z.value| <= destSize then size == Some(|z.value|) && dest[..|z.value|] == z.value
      else size == None
  {
    var z := if CompressionType(alg) == COMP_NONE then Some(src) else lib.compress(alg, src);
    if z.None? || |z.value| > destSize {
      return None;
    }
    forall i | 0 <= i < |z.value| {
      dest[i] := z.value[i];
    }
    return Some(|z.value|);
  }

  function GetCompressSize(lib: Libraries, alg: Algorithm, srcSize: nat): nat {
    if CompressionType(alg) == COMP_NONE then srcSize else lib.bound(alg, srcSize)
  }

  /** The buffer is always large enough: it fails only when the compressor does. */
  method CompressBuffer(lib: Libraries, alg: Algorithm, src: bytes) returns (r: Option<bytes>)
    requires Sound(lib)
    ensures r == Compressed(lib, alg, src)
  {
    var out := new byte[GetCompressSize(lib, alg, |src|)];
    var outLen := Compress(lib, alg, out, out.Length, src);
    if outLen.None? {
      return None;
    }
    return Some(out[..outLen.value]);
  }

  /** IsNulled (utils/data_utils.cpp): small sizes in one expression, others in
      chunks compared with zeros. */
  const CHUNK: nat := 0x1000

  method IsNulled(buff: bytes) returns (r: bool)
    ensures r <==> forall k :: 0 <= k < |buff| ==> buff[k] == 0
  {
    match |buff| {
      case 1 => return buff[0] == 0;
      case 2 => return Get16(buff, 0) == 0;
      case 3 => return Get16(buff, 0) == 0 && buff[2] == 0;
      case 4 => return Get32(buff, 0) == 0;
      case 5 => return Get32(buff, 0) == 0 && buff[4] == 0;
      case 6 => return Get32(buff, 0) == 0 && Get16(buff, 4) == 0;
      case 8 => return Get64(buff, 0) == 0;
      case 16 => return Get64(buff, 0) == 0 && Get64(buff, 8) == 0;
      case _ =>
        var p := 0;
        while p != |buff|
          invariant 0 <= p <= |buff|
          invariant forall k :: 0 <= k < p ==> buff[k] == 0
          decreases |buff| - p
        {
          var tr: nat := Min(CHUNK, |buff| - p);
          if buff[p..p + tr] != Zeros(tr) {
            return false;
          }
          assert forall k :: p <= k < p + tr ==> buff[k] == buff[p..p + tr][k - p];
          p := p + tr;
        }
        return true;
    }
  }
}
