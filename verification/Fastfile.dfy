/** The fastfile container (fastfile.cpp): a header and a stream of blocks, each
    carrying its own position, as the reader and the writer see them. */
module FastfileFormat {
  import opened Bytes
  import opened Results
  import opened Compression
  import Bits

  // ----- The header

  const HEADER_SIZE: nat := 0x248
  const COMPRESSION: nat := 13
  const PLATFORM: nat := 14
  const ENCRYPTED: nat := 15
  const SIZE: nat := 144
  const SIGNATURE: nat := 312
  const SIGNATURE_END: nat := 568

  const FF_T7_MAGIC: u64 := 0x3030303066664154
  const XFILE_PC: byte := 0

  /** The contents and what is needed to write them back. */
  datatype FastfileInfo = FastfileInfo(maxBlockSize: nat, header: bytes, out: bytes)

  datatype FastfileError =
    | BadSize | BadMagic | BadPlatform | EncryptedFile | DeltaFile | NoCodec
    | BadBlockPosition(loc: nat) | ReadPastEnd | BadBlock(at: nat)
    | OutOfBounds   // the program would read or write outside its buffers
    | CannotCompress
    | Endless       // the program would write empty blocks for ever

  function GetFastFileCompressionAlgorithm(comp: byte): Option<Algorithm> {
    match comp
    case 0 => Some(COMP_NONE)
    case 1 => Some(COMP_ZLIB)
    case 2 => Some(COMP_ZLIB + COMP_HIGH_COMPRESSION)
    case 3 => Some(COMP_LZ4)
    case 4 => Some(COMP_LZ4 + COMP_HIGH_COMPRESSION)
    case 8 => Some(COMP_OODLE + COMP_OODLE_TYPE_KRAKEN)
    case 9 => Some(COMP_OODLE + COMP_OODLE_TYPE_MERMAID)
    case 10 => Some(COMP_OODLE + COMP_OODLE_TYPE_SELKIE)
    case 11 => Some(COMP_OODLE + COMP_OODLE_TYPE_LZNA)
    case _ => None
  }

  /** The header with the 256 bytes of its signature zero, and every other byte kept. */
  function ClearSignature(header: bytes): (r: bytes)
    requires |header| == HEADER_SIZE
    ensures |r| == 584 && forall k :: 0 <= k < 584 ==> r[k] == if 312 <= k < 568 then 0 else header[k]
  {
    header[..SIGNATURE] + Zeros(SIGNATURE_END - SIGNATURE) + header[SIGNATURE_END..]
  }

  /** The first reason the reader refuses the header. */
  function HeaderError(file: bytes): Option<FastfileError> {
    if |file| < HEADER_SIZE then Some(BadSize)
    else if Get64(file, 0) != FF_T7_MAGIC then Some(BadMagic)
    else if file[PLATFORM] != XFILE_PC then Some(BadPlatform)
    else if file[ENCRYPTED] != 0 then Some(EncryptedFile)
    else if 5 <= file[COMPRESSION] <= 7 then Some(DeltaFile)
    else if GetFastFileCompressionAlgorithm(file[COMPRESSION]).None? then Some(NoCodec)
    else None
  }

  /** The codec a header byte stands for. */
  lemma CodecByHeader(comp: byte)
    ensures var a := GetFastFileCompressionAlgorithm(comp);
      && (a.Some? <==> comp <= 4 || 8 <= comp <= 11)
      && (a.Some? && CompressionType(a.value) == COMP_NONE <==> comp == 0)
      && (a.Some? && CompressionType(a.value) == COMP_ZLIB <==> comp == 1 || comp == 2)
      && (a.Some? && CompressionType(a.value) == COMP_LZ4 <==> comp == 3 || comp == 4)
      && (a.Some? && CompressionType(a.value) == COMP_OODLE <==> 8 <= comp <= 11)
      && (a.Some? && a.value / 0x100 % 0x10 == 1 <==> comp == 2 || comp == 4)
    ensures forall c: byte :: c != comp && GetFastFileCompressionAlgorithm(c).Some? ==>
      GetFastFileCompressionAlgorithm(c) != GetFastFileCompressionAlgorithm(comp)
  {
  }

  /** Which files are accepted: "TAff0000" for the platform 0, neither encrypted nor
      delta, with a known codec; and which reason is given otherwise. */
  lemma HeaderAcceptedIff(file: bytes)
    ensures HeaderError(file).None? <==>
      && |file| >= 584 && file[..8] == [84, 65, 102, 102, 48, 48, 48, 48] && file[14] == 0 && file[15] == 0
      && (file[13] <= 4 || 8 <= file[13] <= 11)
    ensures HeaderError(file) == Some(BadSize) <==> |file| < 584
    ensures |file| >= 584 ==>
      && (HeaderError(file) == Some(BadMagic) <==> file[..8] != [84, 65, 102, 102, 48, 48, 48, 48])
      && (file[..8] == [84, 65, 102, 102, 48, 48, 48, 48] ==>
           && (HeaderError(file) == Some(BadPlatform) <==> file[14] != 0)
           && (HeaderError(file) == Some(EncryptedFile) <==> file[14] == 0 && file[15] != 0)
           && (HeaderError(file) == Some(DeltaFile) <==> file[14] == 0 && file[15] == 0 && 5 <= file[13] <= 7))
  {
    hide GetFastFileCompressionAlgorithm, Get64;
    if |file| >= 584 {
      CodecByHeader(file[13]);
      MagicBytes(file);
    }
  }

  lemma MagicBytes(file: bytes)
    requires |file| >= 8
    ensures Get64(file, 0) == FF_T7_MAGIC <==> file[..8] == [84, 65, 102, 102, 48, 48, 48, 48]
  {
    var w: bytes := [84, 65, 102, 102, 48, 48, 48, 48];
    assert Get64(w, 0) == FF_T7_MAGIC;
    hide Get64;
    Get64Injective(file, 0, w, 0);
    assert w[0..8] == w && file[0..8] == file[..8];
  }

  // ----- Reading

  const PADDING_ALIGN: nat := 0x800000
  const BLOCK_HEADER: nat := 16

  function NextMultiple(x: nat, a: nat): (r: nat)
    requires a > 0
    ensures x <= r < x + a
  {
    x + (a - 1) - (x + (a - 1)) % a
  }

  /** The reader's position, the contents with `offset` bytes done, and the
      largest block so far. */
  datatype Reading = Reading(pos: nat, out: bytes, offset: nat, max: nat)

  /** Reads one block, or skips the padding after an empty one. */
  function ReadOne(lib: Libraries, alg: Algorithm, file: bytes, r: Reading): (n: Result<Reading, FastfileError>)
    requires Sound(lib) && r.offset < |r.out|
    ensures n.Ok? ==> r.pos < n.value.pos <= |file| && |n.value.out| == |r.out| && n.value.offset <= |r.out|
    ensures n.Ok? ==> r.max <= n.value.max <= Max(r.max, |r.out|) && (n.value.offset != r.offset ==> n.value.max >= 1)
  {
    if r.pos + BLOCK_HEADER > |file| then Err(ReadPastEnd)
    else
      var compressedSize, uncompressedSize := Get32(file, r.pos), Get32(file, r.pos + 4);
      var data := r.pos + BLOCK_HEADER;
      if Get32(file, r.pos + 12) != r.pos then Err(BadBlockPosition(r.pos))
      else if uncompressedSize == 0 then
        var next := NextMultiple(data, PADDING_ALIGN);
        if next > |file| then Err(ReadPastEnd) else Ok(r.(pos := next))
      else
        var end := data + Get32(file, r.pos + 8);
        if end > |file| then Err(ReadPastEnd)
        else if r.offset + uncompressedSize > |r.out| || data + compressedSize > |file| then Err(OutOfBounds)
        else
          var d := Decompressed(lib, alg, r.out[r.offset..r.offset + uncompressedSize],
            file[data..data + compressedSize]);
          if d.None? then Err(BadBlock(r.pos))
          else
            Ok(Reading(end, Over(r.out, r.offset, d.value), r.offset + uncompressedSize,
              Max(r.max, uncompressedSize)))
  }

  /** Reads blocks until the contents are full; there is a largest block as soon
      as there are contents. */
  function ReadBlocks(lib: Libraries, alg: Algorithm, file: bytes, r: Reading): (n: Result<Reading, FastfileError>)
    requires Sound(lib)
    ensures n.Ok? ==> |n.value.out| == |r.out| && r.max <= n.value.max <= Max(r.max, |r.out|)
    ensures n.Ok? && r.offset < |r.out| ==> n.value.max >= 1
    decreases |file| - r.pos
  {
    if r.offset >= |r.out| then Ok(r)
    else
      match ReadOne(lib, alg, file, r)
      case Err(e) => Err(e)
      case Ok(n) => ReadBlocks(lib, alg, file, n)
  }

  /** What the writer asks of the information it is given, and the reader of
      the header that comes out. */
  ghost predicate Writable(lib: Libraries, info: FastfileInfo) {
    && Sound(lib) && |info.header| == HEADER_SIZE && HeaderError(info.header).None?
    && Get64(info.header, SIZE) == |info.out| && (info.out == [] || info.maxBlockSize >= 1)
  }

  function Codec(info: FastfileInfo): Algorithm
    requires |info.header| == HEADER_SIZE && HeaderError(info.header).None?
  {
    GetFastFileCompressionAlgorithm(info.header[COMPRESSION]).value
  }

  /** Clearing the signature leaves an acceptable header acceptable. */
  lemma HeaderCleared(file: bytes)
    requires HeaderError(file).None?
    ensures var h := ClearSignature(file[..HEADER_SIZE]);
      HeaderError(h).None? && Get64(h, SIZE) == Get64(file, SIZE) && h[COMPRESSION] == file[COMPRESSION]
  {
    var h := ClearSignature(file[..HEADER_SIZE]);
    assert forall k :: 0 <= k < SIGNATURE ==> h[k] == file[k];
  }

  /** What is read can be written: an accepted header without signature, the
      announced amount of data, and a block size when there is any. */
  function Unpack(lib: Libraries, file: bytes): (r: Result<FastfileInfo, FastfileError>)
    requires Sound(lib)
    ensures r.Ok? ==> Writable(lib, r.value) && HeaderError(file).None?
    ensures r.Ok? ==> r.value.header == ClearSignature(file[..HEADER_SIZE]) && r.value.maxBlockSize <= |r.value.out|
  {
    var e := HeaderError(file);
    if e.Some? then Err(e.value)
    else
      HeaderCleared(file);
      var alg := GetFastFileCompressionAlgorithm(file[COMPRESSION]).value;
      match ReadBlocks(lib, alg, file, Reading(HEADER_SIZE, Zeros(Get64(file, SIZE)), 0, 0))
      case Err(x) => Err(x)
      case Ok(n) => Ok(FastfileInfo(n.max, ClearSignature(file[..HEADER_SIZE]), n.out))
  }

  // ----- Writing

  function BlockHeader(compressed: u32, uncompressed: u32, aligned: u32, offset: u32): (r: bytes)
    ensures |r| == BLOCK_HEADER
  {
    Le32(compressed) + Le32(uncompressed) + Le32(aligned) + Le32(offset)
  }

  /** A block written at `at` for `n` bytes compressed to `z`, padded so that the
      file ends on a multiple of four. */
  function Block(at: nat, n: nat, z: bytes): (r: bytes)
    ensures |r| >= BLOCK_HEADER + |z|
  {
    var size := at + BLOCK_HEADER + |z|;
    BlockHeader(|z| % WORD32, n % WORD32, NextMultiple(|z| % WORD32, 4) % WORD32, at % WORD32)
    + z + Zeros(NextMultiple(size, 4) - size)
  }

  /** The blocks of `data`, at most `m` bytes each, written from `at` on. */
  function Stream(lib: Libraries, alg: Algorithm, data: bytes, m: nat, at: nat): Option<bytes>
    requires data == [] || m >= 1
    decreases |data|
  {
    if data == [] then Some([])
    else
      var n := Min(m, |data|);
      var z := Compressed(lib, alg, data[..n]);
      if z.None? then None
      else
        var b := Block(at, n, z.value);
        var rest := Stream(lib, alg, data[n..], m, at + |b|);
        if rest.None? then None else Some(b + rest.value)
  }

  function Pack(lib: Libraries, info: FastfileInfo): Result<bytes, FastfileError>
    requires |info.header| == HEADER_SIZE
  {
    var alg := GetFastFileCompressionAlgorithm(info.header[COMPRESSION]);
    if alg.None? then Err(NoCodec)
    else if info.out != [] && info.maxBlockSize == 0 then
      if Compressed(lib, alg.value, []).None? then Err(CannotCompress) else Err(Endless)
    else
      var s := Stream(lib, alg.value, info.out, info.maxBlockSize, HEADER_SIZE);
      if s.None? then Err(CannotCompress) else Ok(info.header + s.value)
  }

  /** A written file starts with the header it was given. */
  lemma HeaderIsWritten(lib: Libraries, info: FastfileInfo)
    requires |info.header| == HEADER_SIZE && Pack(lib, info).Ok?
    ensures |Pack(lib, info).value| >= 584 && Pack(lib, info).value[..584] == info.header
  {
    hide Stream;
  }

  // ----- The round trip

  /** Every block and its compressed form have sizes the block header can hold. */
  ghost predicate SizesFit(lib: Libraries, alg: Algorithm, data: bytes, m: nat)
    requires data == [] || m >= 1
    decreases |data|
  {
    data == [] ||
    var n := Min(m, |data|);
    var z := Compressed(lib, alg, data[..n]);
    n < WORD32 && (z.Some? ==> |z.value| <= WORD32 - 4) && SizesFit(lib, alg, data[n..], m)
  }

  /** Where the blocks of `data` start. */
  ghost function Starts(lib: Libraries, alg: Algorithm, data: bytes, m: nat, at: nat): seq<nat>
    requires data == [] || m >= 1
    requires Stream(lib, alg, data, m, at).Some?
    decreases |data|
  {
    if data == [] then []
    else
      var n := Min(m, |data|);
      var b := Block(at, n, Compressed(lib, alg, data[..n]).value);
      [at] + Starts(lib, alg, data[n..], m, at + |b|)
  }

  lemma NextMultipleOfFour(x: nat)
    ensures NextMultiple(x, 4) % 4 == 0 && x <= NextMultiple(x, 4) < x + 4
    ensures x % 4 == 0 ==> NextMultiple(x, 4) == x
  {
  }

  lemma FieldIs(s: bytes, o: nat, h: bytes, k: nat, v: u32)
    requires o + |h| <= |s| && k + 4 <= |h| && s[o..o + |h|] == h && h[k..k + 4] == Le32(v)
    ensures Get32(s, o + k) == v
  {
    hide Le32;
    SliceOfSlice(s, o, o + |h|, k, k + 4);
    Get32Injective(s, o + k, Le32(v), 0);
    assert Le32(v)[0..4] == Le32(v);
  }

  lemma HeaderFields(s: bytes, o: nat, a: u32, b: u32, c: u32, d: u32)
    requires o + BLOCK_HEADER <= |s| && s[o..o + BLOCK_HEADER] == BlockHeader(a, b, c, d)
    ensures Get32(s, o) == a && Get32(s, o + 4) == b && Get32(s, o + 8) == c && Get32(s, o + 12) == d
  {
    hide Le32, Get32;
    var h := BlockHeader(a, b, c, d);
    assert h[0..4] == Le32(a) && h[4..8] == Le32(b) && h[8..12] == Le32(c) && h[12..16] == Le32(d);
    FieldIs(s, o, h, 0, a);
    FieldIs(s, o, h, 4, b);
    FieldIs(s, o, h, 8, c);
    FieldIs(s, o, h, 12, d);
  }

  /** A block written on a multiple of four ends on one, and its aligned size is
      exactly what was written after its header. */
  lemma BlockFields(pre: bytes, n: nat, z: bytes, rest: bytes)
    requires |pre| % 4 == 0 && |z| <= WORD32 - 4
    ensures var at, file, b := |pre|, pre + Block(|pre|, n, z) + rest, Block(|pre|, n, z);
      && |b| == BLOCK_HEADER + NextMultiple(|z|, 4)
      && Get32(file, at) == |z| && Get32(file, at + 4) == n % WORD32
      && Get32(file, at + 8) == NextMultiple(|z|, 4) && Get32(file, at + 12) == at % WORD32
      && file[at + BLOCK_HEADER..at + BLOCK_HEADER + |z|] == z
      && forall k :: at + BLOCK_HEADER + |z| <= k < at + |b| ==> file[k] == 0
  {
    hide BlockHeader, Get32, NextMultiple;
    var at, b := |pre|, Block(|pre|, n, z);
    var file := pre + b + rest;
    NextMultipleOfFour(|z|);
    PaddingIs(at, |z|);
    var h := BlockHeader(|z|, n % WORD32, NextMultiple(|z|, 4), at % WORD32);
    var zeros := Zeros(NextMultiple(|z|, 4) - |z|);
    assert b == h + z + zeros;
    assert file[at..at + BLOCK_HEADER] == h;
    HeaderFields(file, at, |z|, n % WORD32, NextMultiple(|z|, 4), at % WORD32);
  }

  lemma PaddingIs(at: nat, n: nat)
    requires at % 4 == 0
    ensures var size := at + BLOCK_HEADER + n; NextMultiple(size, 4) == at + BLOCK_HEADER + NextMultiple(n, 4)
    ensures (at + BLOCK_HEADER + NextMultiple(n, 4)) % 4 == 0
  {
  }

  ghost predicate Below4G(starts: seq<nat>) {
    forall i :: 0 <= i < |starts| ==> starts[i] < WORD32
  }

  lemma BlockEnds(at: nat, n: nat, z: bytes)
    requires at % 4 == 0
    ensures (at + |Block(at, n, z)|) % 4 == 0
  {
    NextMultipleOfFour(at + BLOCK_HEADER + |z|);
  }

  /** Reading one written block. */
  lemma ReadWritten(lib: Libraries, alg: Algorithm, pre: bytes, n: nat, z: bytes, rest: bytes, r: Reading)
    requires Sound(lib) && r.pos == |pre| && |pre| % 4 == 0
    requires 1 <= n < WORD32 && |z| <= WORD32 - 4 && r.offset + n <= |r.out|
    requires Decompressed(lib, alg, r.out[r.offset..r.offset + n], z).Some?
    ensures var b := Block(r.pos, n, z);
      var d := Decompressed(lib, alg, r.out[r.offset..r.offset + n], z).value;
      ReadOne(lib, alg, pre + b + rest, r)
      == if r.pos >= WORD32 then Err(BadBlockPosition(r.pos))
         else Ok(Reading(r.pos + |b|, Over(r.out, r.offset, d), r.offset + n, Max(r.max, n)))
  {
    hide Get32, Block, Decompressed, NextMultiple;
    BlockFields(pre, n, z, rest);
    NextMultipleOfFour(|z|);
    Bits.DivModUnique(n, 0, n, WORD32);
    if |pre| < WORD32 {
      Bits.DivModUnique(|pre|, 0, |pre|, WORD32);
    }
  }

  lemma UndoesLess(lib: Libraries, alg: Algorithm, n: nat, k: nat)
    requires Sound(lib) && Undoes(lib, alg, n) && k <= n
    ensures Undoes(lib, alg, k)
  {
  }

  /** The reader finishes with `data` and a largest block of `max`, or, when not
      `ok`, refuses the position of a block. */
  ghost predicate ReadsBack(lib: Libraries, alg: Algorithm, file: bytes, r: Reading, data: bytes, max: nat, ok: bool)
    requires Sound(lib) && r.offset <= |r.out|
  {
    var n := ReadBlocks(lib, alg, file, r);
    if ok then n.Ok? && n.value.out == r.out[..r.offset] + data && n.value.max == Max(r.max, max)
    else n.Err? && n.error.BadBlockPosition?
  }

  lemma ReadsBackRefused(lib: Libraries, alg: Algorithm, file: bytes, r: Reading, data: bytes, max: nat)
    requires Sound(lib) && r.offset < |r.out| && ReadOne(lib, alg, file, r) == Err(BadBlockPosition(r.pos))
    ensures ReadsBack(lib, alg, file, r, data, max, false)
  {
    hide ReadOne, ReadBlocks;
    ReadMore(lib, alg, file, r);
  }

  lemma Regrouped<T>(a: seq<T>, b: seq<T>, c: seq<T>)
    ensures a + b + c == a + (b + c)
  {
  }

  lemma OverSize(out: bytes, offset: nat, part: bytes)
    requires offset + |part| <= |out|
    ensures |Over(out, offset, part)| == |out|
  {
  }

  lemma OverPrefix(out: bytes, offset: nat, data: bytes, n: nat)
    requires n <= |data| && |out| == offset + |data|
    ensures Over(out, offset, data[..n])[..offset + n] + data[n..] == out[..offset] + data
  {
    assert data == data[..n] + data[n..];
  }

  lemma UndoesOne(lib: Libraries, alg: Algorithm, src: bytes, dest: bytes)
    requires Sound(lib) && Undoes(lib, alg, |src|) && |dest| == |src| && Compressed(lib, alg, src).Some?
    ensures Decompressed(lib, alg, dest, Compressed(lib, alg, src).value) == Some(src)
  {
  }

  /** Reading a block written from a part of the data puts that part back. */
  lemma ReadPart(lib: Libraries, alg: Algorithm, pre: bytes, part: bytes, rest: bytes, r: Reading)
    requires Sound(lib) && Undoes(lib, alg, |part|) && r.pos == |pre| && |pre| % 4 == 0
    requires 1 <= |part| < WORD32 && r.offset + |part| <= |r.out|
    requires Compressed(lib, alg, part).Some? && |Compressed(lib, alg, part).value| <= WORD32 - 4
    ensures var b := Block(r.pos, |part|, Compressed(lib, alg, part).value);
      ReadOne(lib, alg, pre + b + rest, r)
      == if r.pos >= WORD32 then Err(BadBlockPosition(r.pos))
         else Ok(Reading(r.pos + |b|, Over(r.out, r.offset, part), r.offset + |part|, Max(r.max, |part|)))
  {
    hide ReadOne, Block, Over, Max, Compressed, Decompressed, Undoes;
    var dest, z := r.out[r.offset..r.offset + |part|], Compressed(lib, alg, part).value;
    UndoesOne(lib, alg, part, dest);
    ReadWritten(lib, alg, pre, |part|, z, rest, r);
  }

  lemma Below4GTail(at: nat, starts: seq<nat>)
    ensures Below4G([at] + starts) <==> at < WORD32 && Below4G(starts)
  {
    var s := [at] + starts;
    assert s[0] == at;
    assert forall i :: 0 <= i < |starts| ==> s[i + 1] == starts[i];
  }

  lemma ReadMore(lib: Libraries, alg: Algorithm, file: bytes, r: Reading)
    requires Sound(lib) && r.offset < |r.out|
    ensures var n := ReadOne(lib, alg, file, r);
      ReadBlocks(lib, alg, file, r) == if n.Err? then n else ReadBlocks(lib, alg, file, n.value)
  {
    hide ReadOne;
  }

  // ----- Padding between blocks

  /** Where the padding after an empty block at `at` ends: the least multiple of
      0x800000 behind its header. */
  function PaddingEnd(at: nat): (p: nat)
    ensures p % 0x80_0000 == 0 && at + 16 <= p && forall q :: at + 16 <= q < p ==> q % 0x80_0000 != 0
    ensures p % 4 == 0
  {
    var k := (at + 16 + 0x7f_ffff) / 0x80_0000;
    var p := k * 0x80_0000;
    MultipleIsLeast(at + 16, p, 0x80_0000);
    Bits.DivModUnique(p, 0x20_0000 * k, 0, 4);
    p
  }

  lemma MultipleIsLeast(x: nat, p: nat, a: nat)
    requires a > 0 && p == (x + (a - 1)) / a * a
    ensures p % a == 0 && x <= p < x + a && forall q :: x <= q < p ==> q % a != 0
  {
    var k := (x + (a - 1)) / a;
    Bits.DivModUnique(p, k, 0, a);
    forall q | x <= q < p
      ensures q % a != 0
    {
      Bits.DivModUnique(q, k - 1, q - a * (k - 1), a);
    }
  }

  lemma NextIsPaddingEnd(at: nat)
    ensures NextMultiple(at + BLOCK_HEADER, PADDING_ALIGN) == PaddingEnd(at)
  {
    var x, a := at + BLOCK_HEADER, PADDING_ALIGN;
    Bits.LeastMultiple(x, a, NextMultiple(x, a));
  }

  /** An empty block, wherever it stands, sends the reader to the next multiple of
      0x800000 behind it, or is refused when that is past the end. */
  lemma EmptyBlockSkips(lib: Libraries, alg: Algorithm, file: bytes, r: Reading)
    requires Sound(lib) && r.offset < |r.out| && r.pos + 16 <= |file|
    requires Get32(file, r.pos + 4) == 0 && Get32(file, r.pos + 12) == r.pos
    ensures ReadBlocks(lib, alg, file, r)
      == if PaddingEnd(r.pos) > |file| then Err(ReadPastEnd) else ReadBlocks(lib, alg, file, r.(pos := PaddingEnd(r.pos)))
  {
    hide NextMultiple, PaddingEnd, ReadBlocks, Get32;
    NextIsPaddingEnd(r.pos);
    ReadMore(lib, alg, file, r);
  }

  /** An empty block and the zeros that follow it. */
  function EmptyBlock(at: nat): (r: bytes)
    ensures at + |r| == PaddingEnd(at)
  {
    BlockHeader(0, 0, 0, at % WORD32) + Zeros(PaddingEnd(at) - at - BLOCK_HEADER)
  }

  lemma ReadPadding(lib: Libraries, alg: Algorithm, pre: bytes, rest: bytes, r: Reading)
    requires Sound(lib) && r.pos == |pre| && r.offset < |r.out|
    ensures ReadOne(lib, alg, pre + EmptyBlock(r.pos) + rest, r)
      == if r.pos >= WORD32 then Err(BadBlockPosition(r.pos)) else Ok(r.(pos := PaddingEnd(r.pos)))
  {
    hide BlockHeader, Get32, NextMultiple, PaddingEnd;
    var at := r.pos;
    var h, file := BlockHeader(0, 0, 0, at % WORD32), pre + EmptyBlock(at) + rest;
    NextIsPaddingEnd(at);
    assert file[at..at + BLOCK_HEADER] == h;
    HeaderFields(file, at, 0, 0, 0, at % WORD32);
    if at < WORD32 {
      Bits.DivModUnique(at, 0, at, WORD32);
    }
  }

  function Total(ns: seq<nat>): nat {
    if ns == [] then 0 else ns[0] + Total(ns[1..])
  }

  function Largest(ns: seq<nat>): nat {
    if ns == [] then 0 else Max(ns[0], Largest(ns[1..]))
  }

  /** Block sizes for some data, with zeros for padding; nothing is padded after the
      last block. */
  ghost predicate Sizes(ns: seq<nat>, data: bytes) {
    Total(ns) == |data| && (ns != [] ==> ns[|ns| - 1] >= 1)
  }

  /** The block for a part of the data; an empty one is padded. */
  function PaddedBlock(lib: Libraries, alg: Algorithm, part: bytes, at: nat): bytes
    requires part != [] ==> Compressed(lib, alg, part).Some?
  {
    if part == [] then EmptyBlock(at) else Block(at, |part|, Compressed(lib, alg, part).value)
  }

  /** A stream of blocks of these sizes, padded where a size is zero. */
  function Padded(lib: Libraries, alg: Algorithm, data: bytes, ns: seq<nat>, at: nat): Option<bytes>
    decreases |ns|
  {
    if ns == [] then Some([])
    else
      var n := Min(ns[0], |data|);
      if n > 0 && Compressed(lib, alg, data[..n]).None? then None
      else
        var b := PaddedBlock(lib, alg, data[..n], at);
        var rest := Padded(lib, alg, data[n..], ns[1..], at + |b|);
        if rest.None? then None else Some(b + rest.value)
  }

  /** Such a stream behind `pre`. */
  function PaddedFile(lib: Libraries, alg: Algorithm, pre: bytes, data: bytes, ns: seq<nat>): bytes {
    var s := Padded(lib, alg, data, ns, |pre|);
    if s.None? then pre else pre + s.value
  }

  /** Every block and its compressed form have sizes the block header can hold. */
  ghost predicate PaddedFit(lib: Libraries, alg: Algorithm, data: bytes, ns: seq<nat>)
    decreases |ns|
  {
    ns == [] ||
    var n := Min(ns[0], |data|);
    var z := Compressed(lib, alg, data[..n]);
    n < WORD32 && (z.Some? ==> |z.value| <= WORD32 - 4) && PaddedFit(lib, alg, data[n..], ns[1..])
  }

  /** Where its blocks start, empty ones included. */
  ghost function PaddedStarts(lib: Libraries, alg: Algorithm, data: bytes, ns: seq<nat>, at: nat): seq<nat>
    decreases |ns|
  {
    if ns == [] then []
    else
      var n := Min(ns[0], |data|);
      if n > 0 && Compressed(lib, alg, data[..n]).None? then []
      else [at] + PaddedStarts(lib, alg, data[n..], ns[1..], at + |PaddedBlock(lib, alg, data[..n], at)|)
  }

  lemma PaddedParts(lib: Libraries, alg: Algorithm, pre: bytes, data: bytes, ns: seq<nat>)
    requires Sizes(ns, data) && ns != [] && Padded(lib, alg, data, ns, |pre|).Some? && PaddedFit(lib, alg, data, ns)
    ensures ns[0] <= |data| && data != []
    ensures ns[0] > 0 ==>
      && ns[0] < WORD32 && Compressed(lib, alg, data[..ns[0]]).Some?
      && |Compressed(lib, alg, data[..ns[0]]).value| <= WORD32 - 4
    ensures Sizes(ns[1..], data[ns[0]..]) && PaddedFit(lib, alg, data[ns[0]..], ns[1..])
    ensures var b := PaddedBlock(lib, alg, data[..ns[0]], |pre|);
      && Padded(lib, alg, data[ns[0]..], ns[1..], |pre + b|).Some?
      && PaddedFile(lib, alg, pre + b, data[ns[0]..], ns[1..]) == PaddedFile(lib, alg, pre, data, ns)
      && PaddedStarts(lib, alg, data, ns, |pre|) == [|pre|] + PaddedStarts(lib, alg, data[ns[0]..], ns[1..], |pre + b|)
  {
    hide Compressed, PaddedBlock, PaddedFit;
    LastInTotal(ns);
    FitParts(lib, alg, data, ns);
    var b := PaddedBlock(lib, alg, data[..ns[0]], |pre|);
    var rest := Padded(lib, alg, data[ns[0]..], ns[1..], |pre + b|);
    Regrouped(pre, b, rest.value);
  }

  lemma FitParts(lib: Libraries, alg: Algorithm, data: bytes, ns: seq<nat>)
    requires ns != [] && ns[0] <= |data| && PaddedFit(lib, alg, data, ns)
    ensures ns[0] < WORD32 && PaddedFit(lib, alg, data[ns[0]..], ns[1..])
    ensures var z := Compressed(lib, alg, data[..ns[0]]); z.Some? ==> |z.value| <= WORD32 - 4
  {
    hide Compressed;
  }

  lemma {:induction false} LastInTotal(ns: seq<nat>)
    requires ns != []
    ensures Total(ns) >= ns[|ns| - 1]
  {
    if |ns| > 1 {
      LastInTotal(ns[1..]);
    }
  }

  lemma ReadsBackPart(lib: Libraries, alg: Algorithm, file: bytes, r: Reading, data: bytes, n: nat, pos: nat, k: nat,
      ok: bool)
    requires Sound(lib) && n <= |data| && data != [] && |r.out| == r.offset + |data|
    requires var next := AfterPart(r, data[..n], pos);
      ReadOne(lib, alg, file, r) == Ok(next) && ReadsBack(lib, alg, file, next, data[n..], k, ok)
    ensures ReadsBack(lib, alg, file, r, data, Max(n, k), ok)
  {
    hide ReadOne, Over, ReadBlocks;
    ReadMore(lib, alg, file, r);
    OverPrefix(r.out, r.offset, data, n);
  }

  /** The reader gets the data back from the file, exactly when every block, empty
      ones included, starts where 32 bits can say so. */
  ghost predicate PaddedReads(lib: Libraries, alg: Algorithm, file: bytes, at: nat, data: bytes, ns: seq<nat>, r: Reading)
    requires Sound(lib)
  {
    && r.offset <= |r.out|
    && ReadsBack(lib, alg, file, r, data, Largest(ns), Below4G(PaddedStarts(lib, alg, data, ns, at)))
  }

  /** What reading a padded stream behind `pre` asks for. */
  ghost predicate Readable(lib: Libraries, alg: Algorithm, pre: bytes, data: bytes, ns: seq<nat>, r: Reading)
    requires Sound(lib)
  {
    && Sizes(ns, data) && |r.out| == r.offset + |data| && r.pos == |pre| && |pre| % 4 == 0
    && Undoes(lib, alg, Largest(ns)) && PaddedFit(lib, alg, data, ns) && Padded(lib, alg, data, ns, |pre|).Some?
  }

  lemma {:induction false} ReadPadded(lib: Libraries, alg: Algorithm, pre: bytes, data: bytes, ns: seq<nat>, r: Reading)
    requires Sound(lib) && Readable(lib, alg, pre, data, ns, r)
    ensures PaddedReads(lib, alg, PaddedFile(lib, alg, pre, data, ns), |pre|, data, ns, r)
    decreases |ns|
  {
    hide Padded, PaddedFit, Undoes, ReadsBack, Largest;
    if ns == [] {
      PaddedNothing(lib, alg, pre, data, r);
    } else {
      ReadPaddedFirst(lib, alg, pre, data, ns, r);
      if |pre| >= WORD32 {
        PaddedRefused(lib, alg, pre, data, ns, r);
      } else {
        var part := data[..ns[0]];
        var b := PaddedBlock(lib, alg, part, |pre|);
        ReadableNext(lib, alg, pre, data, ns, r);
        hide Readable, PaddedReads, PaddedBlock, AfterPart, ReadOne, ReadBlocks, Sizes, Total, PaddedFile;
        ReadPadded(lib, alg, pre + b, data[ns[0]..], ns[1..], AfterPart(r, part, |pre + b|));
        PaddedStep(lib, alg, pre, data, ns, r);
      }
    }
  }

  /** Reading the first block. */
  lemma ReadPaddedFirst(lib: Libraries, alg: Algorithm, pre: bytes, data: bytes, ns: seq<nat>, r: Reading)
    requires Sound(lib) && Readable(lib, alg, pre, data, ns, r) && ns != []
    ensures data != [] && ns[0] <= |data| && (ns[0] > 0 ==> Compressed(lib, alg, data[..ns[0]]).Some?)
    ensures var part := data[..ns[0]];
      ReadOne(lib, alg, PaddedFile(lib, alg, pre, data, ns), r)
      == if r.pos >= WORD32 then Err(BadBlockPosition(r.pos))
         else Ok(AfterPart(r, part, |pre + PaddedBlock(lib, alg, part, |pre|)|))
  {
    hide Block, EmptyBlock, ReadOne, Compressed, Padded, PaddedStarts, PaddedFit, Undoes, Over, Max, Largest, PaddedBlock,
      AfterPart;
    PaddedParts(lib, alg, pre, data, ns);
    LargestParts(ns);
    var part := data[..ns[0]];
    var b := PaddedBlock(lib, alg, part, |pre|);
    UndoesLess(lib, alg, Largest(ns), ns[0]);
    ReadPaddedBlock(lib, alg, pre, part, Padded(lib, alg, data[ns[0]..], ns[1..], |pre + b|).value, r);
  }

  lemma ReadableNext(lib: Libraries, alg: Algorithm, pre: bytes, data: bytes, ns: seq<nat>, r: Reading)
    requires Sound(lib) && Readable(lib, alg, pre, data, ns, r) && ns != []
    requires ns[0] <= |data| && (ns[0] > 0 ==> Compressed(lib, alg, data[..ns[0]]).Some?)
    ensures var b := PaddedBlock(lib, alg, data[..ns[0]], |pre|);
      Readable(lib, alg, pre + b, data[ns[0]..], ns[1..], AfterPart(r, data[..ns[0]], |pre + b|))
  {
    hide Block, EmptyBlock, Compressed, Padded, PaddedStarts, PaddedFit, Undoes, Over, Max, Largest, PaddedBlock;
    PaddedParts(lib, alg, pre, data, ns);
    LargestParts(ns);
    PaddedBlockEnds(lib, alg, data[..ns[0]], |pre|);
    UndoesLess(lib, alg, Largest(ns), Largest(ns[1..]));
    OverSize(r.out, r.offset, data[..ns[0]]);
  }

  /** The reader after a block that holds `part`, which ends at `pos`. */
  function AfterPart(r: Reading, part: bytes, pos: nat): Reading
    requires r.offset + |part| <= |r.out|
  {
    Reading(pos, Over(r.out, r.offset, part), r.offset + |part|, Max(r.max, |part|))
  }

  lemma PaddedBlockEnds(lib: Libraries, alg: Algorithm, part: bytes, at: nat)
    requires at % 4 == 0 && (part != [] ==> Compressed(lib, alg, part).Some?)
    ensures (at + |PaddedBlock(lib, alg, part, at)|) % 4 == 0
  {
    hide PaddingEnd, Block, Compressed;
    if part != [] {
      BlockEnds(at, |part|, Compressed(lib, alg, part).value);
    }
  }

  lemma ReadPaddedBlock(lib: Libraries, alg: Algorithm, pre: bytes, part: bytes, rest: bytes, r: Reading)
    requires Sound(lib) && Undoes(lib, alg, |part|) && r.pos == |pre| && |pre| % 4 == 0
    requires |part| < WORD32 && r.offset + |part| <= |r.out| && r.offset < |r.out|
    requires part != [] ==> Compressed(lib, alg, part).Some? && |Compressed(lib, alg, part).value| <= WORD32 - 4
    ensures var b := PaddedBlock(lib, alg, part, |pre|);
      ReadOne(lib, alg, pre + b + rest, r)
      == if r.pos >= WORD32 then Err(BadBlockPosition(r.pos)) else Ok(AfterPart(r, part, |pre| + |b|))
  {
    hide ReadOne, Block, EmptyBlock, Over, Compressed, Undoes;
    if part == [] {
      ReadPadding(lib, alg, pre, rest, r);
      OverNothing(r.out, r.offset);
    } else {
      ReadPart(lib, alg, pre, part, rest, r);
    }
  }

  lemma OverNothing(out: bytes, offset: nat)
    requires offset <= |out|
    ensures Over(out, offset, []) == out
  {
  }

  lemma PaddedRefused(lib: Libraries, alg: Algorithm, pre: bytes, data: bytes, ns: seq<nat>, r: Reading)
    requires Sound(lib) && Readable(lib, alg, pre, data, ns, r) && ns != [] && data != [] && r.pos >= WORD32
    requires ReadOne(lib, alg, PaddedFile(lib, alg, pre, data, ns), r) == Err(BadBlockPosition(r.pos))
    ensures PaddedReads(lib, alg, PaddedFile(lib, alg, pre, data, ns), |pre|, data, ns, r)
  {
    hide ReadOne, ReadBlocks, PaddedBlock, Padded, PaddedStarts, PaddedFit, Below4G, ReadsBack, Largest, Compressed, Undoes,
      PaddedFile;
    PaddedParts(lib, alg, pre, data, ns);
    var b := PaddedBlock(lib, alg, data[..ns[0]], |pre|);
    Below4GTail(|pre|, PaddedStarts(lib, alg, data[ns[0]..], ns[1..], |pre + b|));
    ReadsBackRefused(lib, alg, PaddedFile(lib, alg, pre, data, ns), r, data, Largest(ns));
  }

  lemma PaddedStep(lib: Libraries, alg: Algorithm, pre: bytes, data: bytes, ns: seq<nat>, r: Reading)
    requires Sound(lib) && Readable(lib, alg, pre, data, ns, r) && ns != [] && data != [] && |pre| < WORD32
    requires ns[0] <= |data| && (ns[0] > 0 ==> Compressed(lib, alg, data[..ns[0]]).Some?)
    requires var more, part := pre + PaddedBlock(lib, alg, data[..ns[0]], |pre|), data[..ns[0]];
      && ReadOne(lib, alg, PaddedFile(lib, alg, pre, data, ns), r) == Ok(AfterPart(r, part, |more|))
      && PaddedReads(lib, alg, PaddedFile(lib, alg, more, data[ns[0]..], ns[1..]), |more|, data[ns[0]..], ns[1..],
                     AfterPart(r, part, |more|))
    ensures PaddedReads(lib, alg, PaddedFile(lib, alg, pre, data, ns), |pre|, data, ns, r)
  {
    hide ReadOne, ReadBlocks, PaddedBlock, Padded, PaddedStarts, PaddedFit, Below4G, ReadsBack, Largest, Compressed, Over,
      Undoes, PaddedFile;
    PaddedParts(lib, alg, pre, data, ns);
    LargestParts(ns);
    var n, file := ns[0], PaddedFile(lib, alg, pre, data, ns);
    var more := pre + PaddedBlock(lib, alg, data[..n], |pre|);
    var starts := PaddedStarts(lib, alg, data[n..], ns[1..], |more|);
    Below4GTail(|pre|, starts);
    ReadsBackPart(lib, alg, file, r, data, n, |more|, Largest(ns[1..]), Below4G(starts));
  }

  lemma LargestParts(ns: seq<nat>)
    requires ns != []
    ensures Largest(ns) == Max(ns[0], Largest(ns[1..])) && ns[0] <= Largest(ns) && Largest(ns[1..]) <= Largest(ns)
    ensures ns[0] == 0 ==> Largest(ns[1..]) == Largest(ns)
  {
  }

  lemma PaddedNothing(lib: Libraries, alg: Algorithm, pre: bytes, data: bytes, r: Reading)
    requires Sound(lib) && Total([]) == |data| && |r.out| == r.offset
    ensures PaddedReads(lib, alg, PaddedFile(lib, alg, pre, data, []), |pre|, data, [], r)
  {
    assert pre + [] == pre;
    assert r.out[..r.offset] + data == r.out;
  }

  // ----- A written stream has no padding

  /** The block sizes of the writer. */
  function Chunks(n: nat, m: nat): (r: seq<nat>)
    requires n == 0 || m >= 1
    decreases n
  {
    if n == 0 then [] else [Min(m, n)] + Chunks(n - Min(m, n), m)
  }

  lemma {:induction false} ChunksAreSizes(data: bytes, m: nat)
    requires data == [] || m >= 1
    ensures Sizes(Chunks(|data|, m), data) && Largest(Chunks(|data|, m)) == Min(m, |data|)
    decreases |data|
  {
    if data != [] {
      ChunksAreSizes(data[Min(m, |data|)..], m);
    }
  }

  lemma {:induction false} SameFit(lib: Libraries, alg: Algorithm, data: bytes, m: nat)
    requires (data == [] || m >= 1) && SizesFit(lib, alg, data, m)
    ensures PaddedFit(lib, alg, data, Chunks(|data|, m))
    decreases |data|
  {
    hide Compressed;
    if data != [] {
      SameFit(lib, alg, data[Min(m, |data|)..], m);
    }
  }

  lemma StreamUnfolds(lib: Libraries, alg: Algorithm, data: bytes, m: nat, at: nat)
    requires data != [] && m >= 1 && Stream(lib, alg, data, m, at).Some?
    ensures var n := Min(m, |data|);
      && Compressed(lib, alg, data[..n]).Some?
      && var b := Block(at, n, Compressed(lib, alg, data[..n]).value);
      && Stream(lib, alg, data[n..], m, at + |b|).Some?
      && Stream(lib, alg, data, m, at).value == b + Stream(lib, alg, data[n..], m, at + |b|).value
      && Starts(lib, alg, data, m, at) == [at] + Starts(lib, alg, data[n..], m, at + |b|)
  {
    hide Compressed, Block;
  }

  lemma PaddedUnfolds(lib: Libraries, alg: Algorithm, data: bytes, ns: seq<nat>, at: nat)
    requires ns != [] && 1 <= ns[0] <= |data| && Compressed(lib, alg, data[..ns[0]]).Some?
    requires var b := Block(at, ns[0], Compressed(lib, alg, data[..ns[0]]).value);
      Padded(lib, alg, data[ns[0]..], ns[1..], at + |b|).Some?
    ensures var b := Block(at, ns[0], Compressed(lib, alg, data[..ns[0]]).value);
      && Padded(lib, alg, data, ns, at).Some?
      && Padded(lib, alg, data, ns, at).value == b + Padded(lib, alg, data[ns[0]..], ns[1..], at + |b|).value
      && PaddedStarts(lib, alg, data, ns, at) == [at] + PaddedStarts(lib, alg, data[ns[0]..], ns[1..], at + |b|)
  {
    hide Compressed, Block;
  }

  lemma {:induction false} StreamIsPadded(lib: Libraries, alg: Algorithm, data: bytes, m: nat, at: nat)
    requires (data == [] || m >= 1) && Stream(lib, alg, data, m, at).Some?
    ensures Padded(lib, alg, data, Chunks(|data|, m), at) == Stream(lib, alg, data, m, at)
    ensures PaddedStarts(lib, alg, data, Chunks(|data|, m), at) == Starts(lib, alg, data, m, at)
    decreases |data|
  {
    if data == [] {
      NoChunks(lib, alg, m, at);
    } else {
      hide Compressed, Block, Padded, Stream, PaddedStarts, Starts;
      StreamUnfolds(lib, alg, data, m, at);
      var n, ns := Min(m, |data|), Chunks(|data|, m);
      assert ns != [] && ns[0] == n && 1 <= n <= |data| && ns[1..] == Chunks(|data[n..]|, m);
      hide Min, Chunks;
      StreamIsPadded(lib, alg, data[n..], m, at + |Block(at, n, Compressed(lib, alg, data[..n]).value)|);
      PaddedUnfolds(lib, alg, data, ns, at);
    }
  }

  lemma NoChunks(lib: Libraries, alg: Algorithm, m: nat, at: nat)
    ensures Padded(lib, alg, [], Chunks(0, m), at) == Stream(lib, alg, [], m, at) == Some([])
    ensures PaddedStarts(lib, alg, [], Chunks(0, m), at) == Starts(lib, alg, [], m, at) == []
  {
  }

  /** Reading a written stream gives the data back exactly when every block
      starts where 32 bits can say so. */
  lemma ReadStream(lib: Libraries, alg: Algorithm, pre: bytes, data: bytes, m: nat, r: Reading)
    requires Sound(lib) && (data == [] || m >= 1) && |r.out| == r.offset + |data|
    requires r.pos == |pre| && |pre| % 4 == 0
    requires Undoes(lib, alg, Min(m, |data|)) && SizesFit(lib, alg, data, m)
    requires Stream(lib, alg, data, m, |pre|).Some?
    ensures ReadsBack(lib, alg, pre + Stream(lib, alg, data, m, |pre|).value, r, data, Min(m, |data|),
      Below4G(Starts(lib, alg, data, m, |pre|)))
  {
    hide Padded, Stream, PaddedStarts, Starts, PaddedFit, SizesFit, Largest, Sizes, Undoes, ReadsBack, Below4G;
    ChunksAreSizes(data, m);
    SameFit(lib, alg, data, m);
    StreamIsPadded(lib, alg, data, m, |pre|);
    ReadPadded(lib, alg, pre, data, Chunks(|data|, m), r);
  }

  lemma HeaderOfFile(header: bytes, rest: bytes)
    requires |header| == HEADER_SIZE
    ensures var file := header + rest;
      && HeaderError(file) == HeaderError(header) && file[COMPRESSION] == header[COMPRESSION]
      && Get64(file, SIZE) == Get64(header, SIZE) && file[..HEADER_SIZE] == header
  {
  }

  /** Decompressing a compressed file gives back its header without signature,
      its contents, and the block size used, exactly when every block starts
      below four gigabytes; otherwise a block's position is refused. */
  lemma RoundTrip(lib: Libraries, info: FastfileInfo)
    requires Writable(lib, info)
    requires Undoes(lib, Codec(info), Min(info.maxBlockSize, |info.out|))
    requires SizesFit(lib, Codec(info), info.out, info.maxBlockSize)
    requires Pack(lib, info).Ok?
    ensures var r := Unpack(lib, Pack(lib, info).value);
      if Below4G(Starts(lib, Codec(info), info.out, info.maxBlockSize, HEADER_SIZE)) then
        r == Ok(FastfileInfo(Min(info.maxBlockSize, |info.out|), ClearSignature(info.header), info.out))
      else r.Err? && r.error.BadBlockPosition?
  {
    hide Get32, Get64, Block, ReadBlocks, HeaderError, ClearSignature, Stream;
    var alg := Codec(info);
    var s := Stream(lib, alg, info.out, info.maxBlockSize, HEADER_SIZE).value;
    HeaderOfFile(info.header, s);
    ReadStream(lib, alg, info.header, info.out, info.maxBlockSize, Reading(HEADER_SIZE, Zeros(|info.out|), 0, 0));
    assert Zeros(|info.out|)[..0] + info.out == info.out;
  }

  /** A file whose blocks are padded anywhere reads as its header without signature
      and its contents, and is written back without padding. */
  lemma PaddedRoundTrip(lib: Libraries, alg: Algorithm, header: bytes, data: bytes, ns: seq<nat>)
    requires Sound(lib) && |header| == HEADER_SIZE && HeaderError(header).None? && Get64(header, SIZE) == |data|
    requires GetFastFileCompressionAlgorithm(header[COMPRESSION]) == Some(alg)
    requires Sizes(ns, data) && Undoes(lib, alg, Largest(ns)) && PaddedFit(lib, alg, data, ns)
    requires Padded(lib, alg, data, ns, HEADER_SIZE).Some?
    ensures var r := Unpack(lib, PaddedFile(lib, alg, header, data, ns));
      if Below4G(PaddedStarts(lib, alg, data, ns, HEADER_SIZE)) then
        r == Ok(FastfileInfo(Largest(ns), ClearSignature(header), data))
      else r.Err? && r.error.BadBlockPosition?
  {
    hide Get32, Get64, Block, EmptyBlock, ReadBlocks, HeaderError, ClearSignature, Padded, PaddedStarts, PaddedFit, Largest,
      Undoes;
    HeaderOfFile(header, Padded(lib, alg, data, ns, HEADER_SIZE).value);
    ReadPadded(lib, alg, header, data, ns, Reading(HEADER_SIZE, Zeros(|data|), 0, 0));
    assert Zeros(|data|)[..0] + data == data;
  }

  /** A file that was read and written again is a normal form: reading it gives
      the same information, so writing it once more gives the same bytes. */
  lemma NormalForm(lib: Libraries, file: bytes)
    requires Sound(lib) && Unpack(lib, file).Ok?
    requires var info := Unpack(lib, file).value;
      && Pack(lib, info).Ok?
      && Undoes(lib, Codec(info), info.maxBlockSize)
      && SizesFit(lib, Codec(info), info.out, info.maxBlockSize)
      && Below4G(Starts(lib, Codec(info), info.out, info.maxBlockSize, HEADER_SIZE))
    ensures var g := Pack(lib, Unpack(lib, file).value).value;
      Unpack(lib, g) == Unpack(lib, file) && Pack(lib, Unpack(lib, g).value) == Ok(g)
  {
    hide Get32, Block, ReadBlocks, Stream, Undoes, SizesFit, Starts;
    var info := Unpack(lib, file).value;
    RoundTrip(lib, info);
    ClearTwice(file[..HEADER_SIZE]);
  }

  lemma ClearTwice(h: bytes)
    requires |h| == HEADER_SIZE
    ensures ClearSignature(ClearSignature(h)) == ClearSignature(h)
  {
  }

  // ----- Without a library

  lemma {:induction false} StartsInside(lib: Libraries, alg: Algorithm, data: bytes, m: nat, at: nat)
    requires (data == [] || m >= 1) && Stream(lib, alg, data, m, at).Some?
    ensures forall i :: 0 <= i < |Starts(lib, alg, data, m, at)| ==>
      Starts(lib, alg, data, m, at)[i] < at + |Stream(lib, alg, data, m, at).value|
    decreases |data|
  {
    hide Compressed;
    if data != [] {
      var n := Min(m, |data|);
      var b := Block(at, n, Compressed(lib, alg, data[..n]).value);
      StartsInside(lib, alg, data[n..], m, at + |b|);
    }
  }

  lemma {:induction false} UncompressedFits(lib: Libraries, alg: Algorithm, data: bytes, m: nat, at: nat)
    requires CompressionType(alg) == COMP_NONE && (data == [] || m >= 1) && Min(m, |data|) < 0x8000_0000
    ensures Stream(lib, alg, data, m, at).Some? && SizesFit(lib, alg, data, m)
    decreases |data|
  {
    if data != [] {
      var n := Min(m, |data|);
      UncompressedFits(lib, alg, data[n..], m, at + |Block(at, n, data[..n])|);
    }
  }

  /** An uncompressed file of at most four gigabytes, in blocks of less than two,
      always round trips. */
  lemma UncompressedRoundTrip(lib: Libraries, info: FastfileInfo)
    requires Writable(lib, info) && CompressionType(Codec(info)) == COMP_NONE
    requires Min(info.maxBlockSize, |info.out|) < 0x8000_0000
    ensures var g := Pack(lib, info);
      && g.Ok?
      && (|g.value| <= WORD32 ==>
        Unpack(lib, g.value)
        == Ok(FastfileInfo(Min(info.maxBlockSize, |info.out|), ClearSignature(info.header), info.out)))
  {
    hide Unpack, Stream, Undoes, SizesFit, Starts, ClearSignature;
    var alg := Codec(info);
    UncompressedFits(lib, alg, info.out, info.maxBlockSize, HEADER_SIZE);
    NoneUndoesIff(lib, alg, Min(info.maxBlockSize, |info.out|));
    StartsInside(lib, alg, info.out, info.maxBlockSize, HEADER_SIZE);
    RoundTrip(lib, info);
  }
}

/** The two operations as the program performs them. */
module Fastfiles {
  import opened Bytes
  import opened Results
  import opened ByteBuffers
  import opened Compression
  import opened FastfileFormat
  import Bits

  lemma AlignedIsNextMultiple(x: nat, a: nat, k: nat)
    requires k <= 64 && a == Bits.Pow2(k) && x + a <= Bits.WORD
    ensures Bits.Aligned(x, a) == NextMultiple(x, a)
  {
    Bits.AlignedValue(x, a, k);
  }

  /** Pads with zeros to a multiple of four, one byte at a time. */
  method AlignVector(data: bytes) returns (r: bytes)
    ensures r == data + Zeros(NextMultiple(|data|, 4) - |data|)
  {
    var post := NextMultiple(|data|, 4);
    r := data;
    for i := |data| to post
      invariant r == data + Zeros(i - |data|)
    {
      r := r + [0];
    }
  }

  /** The block header, the compressed data and the padding of the whole file. */
  method AppendBlock(out: bytes, blockDataLen: nat, compressBuffer: bytes) returns (r: bytes)
    ensures r == out + Block(|out|, blockDataLen, compressBuffer)
  {
    hide NextMultiple, BlockHeader;
    var compressedSize := |compressBuffer| % WORD32;
    assert Bits.Pow2(2) == 4;
    AlignedIsNextMultiple(compressedSize, 4, 2);
    var block := BlockHeader(compressedSize, blockDataLen % WORD32, Bits.Aligned(compressedSize, 4) % WORD32,
      |out| % WORD32);
    r := out + block;
    r := r + compressBuffer;
    r := AlignVector(r);
  }

  /** What is written so far followed by the blocks still to come. */
  function Joined(pre: bytes, s: Option<bytes>): Option<bytes> {
    if s.None? then None else Some(pre + s.value)
  }

  lemma StreamStep(lib: Libraries, alg: Algorithm, pre: bytes, data: bytes, m: nat)
    requires data != [] && m >= 1
    ensures var n := Min(m, |data|);
      var z := Compressed(lib, alg, data[..n]);
      Joined(pre, Stream(lib, alg, data, m, |pre|))
      == if z.None? then None
         else var out := pre + Block(|pre|, n, z.value); Joined(out, Stream(lib, alg, data[n..], m, |out|))
  {
    hide Block, Compressed;
    var n := Min(m, |data|);
    var z := Compressed(lib, alg, data[..n]);
    if z.Some? {
      var b := Block(|pre|, n, z.value);
      var rest := Stream(lib, alg, data[n..], m, |pre| + |b|);
      assert rest.Some? ==> pre + (b + rest.value) == pre + b + rest.value;
    }
  }

  /** Writes the header and a block for each part of the contents. */
  method CompressFastfile(lib: Libraries, info: FastfileInfo) returns (r: Result<bytes, FastfileError>)
    requires Sound(lib) && |info.header| == HEADER_SIZE
    ensures r == Pack(lib, info)
  {
    hide Stream, Block, Compressed, Joined, GetFastFileCompressionAlgorithm;
    var alg := GetFastFileCompressionAlgorithm(info.header[COMPRESSION]);
    if alg.None? {
      return Err(NoCodec);
    }
    var out := info.header;
    var toCompress, remainingSize := 0, |info.out|;
    if remainingSize != 0 && info.maxBlockSize == 0 {
      // every block is empty, and nothing is taken from the remaining size
      var nothing := CompressBuffer(lib, alg.value, []);
      return if nothing.None? then Err(CannotCompress) else Err(Endless);
    }
    ghost var whole := Joined(info.header, Stream(lib, alg.value, info.out, info.maxBlockSize, HEADER_SIZE));
    assert info.out[0..] == info.out;
    while remainingSize != 0
      invariant 0 <= toCompress <= |info.out| && remainingSize == |info.out| - toCompress
      invariant whole == Joined(out, Stream(lib, alg.value, info.out[toCompress..], info.maxBlockSize, |out|))
      decreases remainingSize
    {
      ghost var data := info.out[toCompress..];
      StreamStep(lib, alg.value, out, data, info.maxBlockSize);
      var blockDataLen: nat := Min(info.maxBlockSize, remainingSize);
      var compressBuffer := CompressBuffer(lib, alg.value, info.out[toCompress..toCompress + blockDataLen]);
      assert info.out[toCompress..toCompress + blockDataLen] == data[..blockDataLen];
      if compressBuffer.None? {
        PackIs(lib, info, alg.value);
        return Err(CannotCompress);
      }
      out := AppendBlock(out, blockDataLen, compressBuffer.value);
      toCompress := toCompress + blockDataLen;
      remainingSize := remainingSize - blockDataLen;
      assert info.out[toCompress..] == data[blockDataLen..];
    }
    assert info.out[toCompress..] == [];
    NothingLeft(lib, alg.value, info.maxBlockSize, out);
    PackIs(lib, info, alg.value);
    return Ok(out);
  }

  lemma NothingLeft(lib: Libraries, alg: Algorithm, m: nat, out: bytes)
    ensures Joined(out, Stream(lib, alg, [], m, |out|)) == Some(out)
  {
    assert out + [] == out;
  }

  lemma PackIs(lib: Libraries, info: FastfileInfo, alg: Algorithm)
    requires |info.header| == HEADER_SIZE && GetFastFileCompressionAlgorithm(info.header[COMPRESSION]) == Some(alg)
    requires info.out == [] || info.maxBlockSize >= 1
    ensures var whole := Joined(info.header, Stream(lib, alg, info.out, info.maxBlockSize, HEADER_SIZE));
      Pack(lib, info) == if whole.None? then Err(CannotCompress) else Ok(whole.value)
  {
    hide Stream, GetFastFileCompressionAlgorithm;
  }

  /** Reads one block at the cursor into `out`: the new offset and largest size. */
  method ReadBlock(lib: Libraries, alg: Algorithm, reader: ByteBuffer, out: array<byte>, offset: nat, max: nat)
    returns (r: Result<(nat, nat), FastfileError>)
    requires Sound(lib) && reader.Valid() && reader.len == reader.buffer.Length && reader.buffer != out
    requires reader.len + PADDING_ALIGN <= Bits.WORD && offset < out.Length
    modifies reader`pointer, out
    ensures reader.Valid()
    ensures
      var n := ReadOne(lib, alg, reader.buffer[..], Reading(old(reader.pointer), old(out[..]), offset, max));
      match r
      case Err(e) => n == Err(e)
      case Ok(p) => n == Ok(Reading(reader.pointer, out[..], p.0, p.1))
  {
    hide NextMultiple, Decompressed, Get32, Over;
    var file := reader.buffer;
    var loc := reader.pointer;
    var block := reader.ReadPtr(BLOCK_HEADER);
    if block.None? {
      return Err(ReadPastEnd);
    }
    var compressedSize := Read32(file, loc);
    var uncompressedSize := Read32(file, loc + 4);
    var alignedSize := Read32(file, loc + 8);
    var position := Read32(file, loc + 12);
    if position != loc {
      return Err(BadBlockPosition(loc));
    }
    if uncompressedSize == 0 {
      var data := reader.pointer;
      PaddingIsPow2();
      AlignedIsNextMultiple(data, PADDING_ALIGN, 23);
      var ok := reader.Align(PADDING_ALIGN, 23);
      return if ok then Ok((offset, max)) else Err(ReadPastEnd);
    }
    var blockBuff := reader.ReadPtr(alignedSize);
    if blockBuff.None? {
      return Err(ReadPastEnd);
    }
    var src := blockBuff.value;
    if offset + uncompressedSize > out.Length || src + compressedSize > reader.len {
      return Err(OutOfBounds);
    }
    var n := Decompress2(lib, alg, out, offset, uncompressedSize, file[src..src + compressedSize]);
    if n < 0 {
      return Err(BadBlock(loc));
    }
    return Ok((offset + uncompressedSize, Max(max, uncompressedSize)));
  }

  lemma PaddingIsPow2()
    ensures Bits.Pow2(23) == PADDING_ALIGN
  {
    assert Bits.Pow2(8) == 0x100;
    assert Bits.Pow2(16) == 0x1_0000;
  }

  lemma SignatureCleared(header: bytes, nulled: bool)
    requires |header| == HEADER_SIZE
    requires nulled ==> forall k :: 0 <= k < SIGNATURE_END - SIGNATURE ==> header[SIGNATURE..SIGNATURE_END][k] == 0
    ensures nulled ==> ClearSignature(header) == header
  {
    if nulled {
      assert header[SIGNATURE..SIGNATURE_END] == Zeros(SIGNATURE_END - SIGNATURE);
      assert header == header[..SIGNATURE] + header[SIGNATURE..SIGNATURE_END] + header[SIGNATURE_END..];
    }
  }

  /** Reads the header and then blocks until the announced size is filled. */
  method DecompressFastfile(lib: Libraries, file: array<byte>) returns (r: Result<FastfileInfo, FastfileError>)
    requires Sound(lib) && file.Length + PADDING_ALIGN <= Bits.WORD
    ensures r == Unpack(lib, file[..])
  {
    hide ReadOne, GetFastFileCompressionAlgorithm, Get32, Get64;
    var reader := new ByteBuffer(file, file.Length);
    if !reader.CanRead(HEADER_SIZE) {
      return Err(BadSize);
    }
    if Get64(file[..], 0) != FF_T7_MAGIC {
      return Err(BadMagic);
    }
    var header := file[..HEADER_SIZE];
    var _ := reader.ReadPtr(HEADER_SIZE);
    if header[PLATFORM] != XFILE_PC {
      return Err(BadPlatform);
    }
    if header[ENCRYPTED] != 0 {
      return Err(EncryptedFile);
    }
    if 5 <= header[COMPRESSION] <= 7 {
      return Err(DeltaFile);
    }
    var nulled := IsNulled(header[SIGNATURE..SIGNATURE_END]);
    var cleared := header;
    if !nulled {
      cleared := header[..SIGNATURE] + Zeros(SIGNATURE_END - SIGNATURE) + header[SIGNATURE_END..];
    }
    var decompressedSize := Get64(header, SIZE);
    var alg := GetFastFileCompressionAlgorithm(header[COMPRESSION]);
    if alg.None? {
      return Err(NoCodec);
    }
    HeaderOfFile(header, file[HEADER_SIZE..]);
    assert header + file[HEADER_SIZE..] == file[..];
    SignatureCleared(header, nulled);
    var out := new byte[decompressedSize](_ => 0);
    assert out[..] == Zeros(decompressedSize);
    var offset, maxBlockSize := 0, 0;
    while offset < decompressedSize
      invariant reader.Valid() && offset >= 0 && maxBlockSize >= 0
      invariant ReadBlocks(lib, alg.value, file[..], Reading(HEADER_SIZE, Zeros(decompressedSize), 0, 0))
        == ReadBlocks(lib, alg.value, file[..], Reading(reader.pointer, out[..], offset, maxBlockSize))
      decreases reader.len - reader.pointer
    {
      var b := ReadBlock(lib, alg.value, reader, out, offset, maxBlockSize);
      if b.Err? {
        return Err(b.error);
      }
      offset, maxBlockSize := b.value.0, b.value.1;
    }
    return Ok(FastfileInfo(maxBlockSize, cleared, out[..]));
  }
}
