/** Replacing the names of local variables in the preambles of functions
    (GscObfuscator::RemoveLocalVariables). */
module LocalNames {
  import opened Bytes
  import opened Results
  import opened GscFormat
  import opened DevKill
  import opened ScriptTables
  import Bits

  /** The opcodes that create the local variables of a function. */
  const SAFE_CREATE_OPCODES: seq<u16> := [
    0x1d2, 0x299, 0x2f7, 0x336, 0x3fa, 0x45a, 0x49f, 0x5b3, 0x6a7, 0x7b1, 0x80c, 0x83e,
    0x958, 0xa9a, 0xaa1, 0xb17, 0xc67, 0xcd7, 0xcef, 0xe21, 0x1210, 0x1224, 0x1260, 0x12e2,
    0x1386, 0x13c3, 0x13ed, 0x15a1, 0x1654, 0x1897, 0x18a4, 0x195f, 0x1995, 0x1b60, 0x1b6b, 0x1c6d,
    0x1e3d, 0x1f65, 0x1f6a, 0x1fa9, 0x209e, 0x213b, 0x221b, 0x23d6, 0x252d, 0x2634, 0x26eb, 0x272d,
    0x27c6, 0x280c, 0x2836, 0x2898, 0x29db, 0x2a67, 0x2b13, 0x2b42, 0x2c8f, 0x2d02, 0x2d24, 0x2dc0,
    0x2de0, 0x2e88, 0x2ebb, 0x2ecf, 0x3029, 0x3196, 0x3227, 0x3243, 0x327c, 0x3308, 0x339a, 0x33e5,
    0x366f, 0x368c, 0x3742, 0x3886, 0x38ab, 0x399f, 0x39c4, 0x3af6, 0x3bb4, 0x3e7e, 0x3ebc
  ]

  /** One variable: its name, its flags and three bytes of padding. */
  const LOCAL_SIZE: nat := 8

  function CodeAt(bc: nat): nat { AlignUp(bc, 2) }

  predicate CodeRoom(size: nat, bc: nat) { CodeAt(bc) + 4 <= size }

  /** How many variables a function's preamble names. */
  function LocalCount(s: bytes, bc: nat): byte
    requires CodeRoom(|s|, bc)
  {
    if Get16(s, CodeAt(bc)) in SAFE_CREATE_OPCODES then s[CodeAt(bc) + 2] else 0
  }

  function LocalTable(bc: nat): nat { AlignUp(CodeAt(bc) + 3, 4) }

  predicate LocalsFit(s: bytes, bc: nat)
    requires CodeRoom(|s|, bc)
  {
    LocalCount(s, bc) == 0 || LocalTable(bc) + LOCAL_SIZE * LocalCount(s, bc) <= |s|
  }

  /** The flag of a variable argument list, which keeps its name. */
  predicate Varargs(flags: byte) { flags / 2 % 2 == 1 }

  /** The first `n` variables of a table, numbered from one. */
  function NumberLocals(s: bytes, at: nat, n: nat): (r: bytes)
    requires n < 0x100 && at + LOCAL_SIZE * n <= |s|
    ensures |r| == |s|
  {
    if n == 0 then s
    else
      var r := NumberLocals(s, at, n - 1);
      var p := at + LOCAL_SIZE * (n - 1);
      if Varargs(r[p + 4]) then r else Put32(r, p, n)
  }

  /** One function; none when its variables do not fit. */
  function RemoveLocals(s: bytes, bc: nat): (r: Option<bytes>)
    requires CodeRoom(|s|, bc)
    ensures r.Some? ==> |r.value| == |s|
  {
    if !LocalsFit(s, bc) then None
    else if LocalCount(s, bc) == 0 then Some(s)
    else Some(NumberLocals(s, LocalTable(bc), LocalCount(s, bc)))
  }

  ghost predicate CodesFit(size: nat, exports: seq<GscExportData>) {
    forall i :: 0 <= i < |exports| ==> CodeRoom(size, exports[i].bc)
  }

  lemma RoomInTable(size: nat, exports: seq<GscExportData>, d: GscExportData)
    requires CodesFit(size, exports) && d in exports
    ensures CodeRoom(size, d.bc)
  {
  }

  /** One function after the other, stopping at one that does not fit. */
  function RemoveAll(s: bytes, order: seq<GscExportData>): (r: Option<bytes>)
    requires CodesFit(|s|, order)
    ensures r.Some? ==> |r.value| == |s|
    decreases |order|
  {
    if order == [] then Some(s)
    else
      var n := |order| - 1;
      match RemoveAll(s, order[..n])
      case None => None
      case Some(t) => RemoveLocals(t, order[n].bc)
  }

  lemma NoneRemoved(s: bytes)
    ensures RemoveAll(s, []) == Some(s)
  {
  }

  lemma RemoveStep(s: bytes, order: seq<GscExportData>, d: GscExportData)
    requires CodesFit(|s|, order) && CodeRoom(|s|, d.bc)
    ensures CodesFit(|s|, order + [d])
    ensures RemoveAll(s, order + [d]) ==
      match RemoveAll(s, order)
      case None => None
      case Some(t) => RemoveLocals(t, d.bc)
  {
    hide RemoveLocals;
    assert (order + [d])[..|order|] == order;
  }

  // ----- One table of variables

  /** A byte of the `j`-th variable's name, when that variable gets a number. */
  predicate NameOfLocal(s: bytes, at: nat, j: nat, k: int)
    requires at + LOCAL_SIZE * j + 4 < |s|
  {
    at + LOCAL_SIZE * j <= k < at + LOCAL_SIZE * j + 4 && !Varargs(s[at + LOCAL_SIZE * j + 4])
  }

  /** Numbering changes names only, and every name it should. */
  lemma {:induction false} NumberedNames(s: bytes, at: nat, n: nat)
    requires n < 0x100 && at + LOCAL_SIZE * n <= |s|
    ensures var r := NumberLocals(s, at, n);
      && (forall j: nat :: j < n && !Varargs(s[at + LOCAL_SIZE * j + 4]) ==> Get32(r, at + LOCAL_SIZE * j) == j + 1)
      && forall k :: 0 <= k < |s| && (forall j: nat :: j < n ==> !NameOfLocal(s, at, j, k)) ==> r[k] == s[k]
    decreases n
  {
    hide Varargs, Get32, Put32;
    if n != 0 {
      NumberedNames(s, at, n - 1);
      var r, p := NumberLocals(s, at, n - 1), at + LOCAL_SIZE * (n - 1);
      assert r[p + 4] == s[p + 4] by {
        var flags := p + 4;
        forall j: nat | j < n - 1
          ensures !NameOfLocal(s, at, j, flags)
        {
        }
      }
      forall j: nat | j < n - 1 && !Varargs(s[at + LOCAL_SIZE * j + 4])
        ensures Get32(NumberLocals(s, at, n), at + LOCAL_SIZE * j) == j + 1
      {
        if !Varargs(r[p + 4]) {
          Put32Elsewhere(r, p, n, at + LOCAL_SIZE * j);
        }
      }
      forall k | 0 <= k < |s| && (forall j: nat :: j < n ==> !NameOfLocal(s, at, j, k))
        ensures NumberLocals(s, at, n)[k] == s[k]
      {
        assert !NameOfLocal(s, at, n - 1, k);
      }
    }
  }

  // ----- All functions

  /** A byte of a local variable's name in the function at `bc`. */
  predicate LocalByte(s: bytes, bc: nat, k: int) {
    CodeRoom(|s|, bc) && LocalsFit(s, bc) && exists j: nat :: j < LocalCount(s, bc) && NameOfLocal(s, LocalTable(bc), j, k)
  }

  /** The local variables of the function are numbered from one. */
  ghost predicate LocalsNamed(s: bytes, t: bytes, bc: nat)
    requires |t| == |s|
  {
    && CodeRoom(|s|, bc) && LocalsFit(s, bc)
    && forall j: nat :: j < LocalCount(s, bc) && !Varargs(s[LocalTable(bc) + LOCAL_SIZE * j + 4]) ==>
         Get32(t, LocalTable(bc) + LOCAL_SIZE * j) == j + 1
  }

  /** Where a preamble ends. */
  function PreambleEnd(s: bytes, bc: nat): nat
    requires CodeRoom(|s|, bc)
  {
    if LocalCount(s, bc) == 0 then CodeAt(bc) + 3 else LocalTable(bc) + LOCAL_SIZE * LocalCount(s, bc)
  }

  predicate SameOrApart(s: bytes, a: nat, b: nat)
    requires CodeRoom(|s|, a) && CodeRoom(|s|, b)
  {
    CodeAt(a) == CodeAt(b) || PreambleEnd(s, a) <= CodeAt(b) || PreambleEnd(s, b) <= CodeAt(a)
  }

  /** Two functions have the same preamble, as aliases do, or keep apart. */
  ghost predicate PreamblesApart(s: bytes, exports: seq<GscExportData>) {
    && CodesFit(|s|, exports)
    && forall i, j :: 0 <= i < |exports| && 0 <= j < |exports| ==> SameOrApart(s, exports[i].bc, exports[j].bc)
  }

  ghost predicate AnyLocalByte(s: bytes, exports: seq<GscExportData>, k: int) {
    exists i :: 0 <= i < |exports| && LocalByte(s, exports[i].bc, k)
  }

  /** The functions seen have numbered variables; nothing but names changed. */
  ghost predicate LocalsSet(s: bytes, t: bytes, exports: seq<GscExportData>, seen: seq<GscExportData>) {
    && |t| == |s|
    && (forall i :: 0 <= i < |seen| ==> seen[i] in exports)
    && (forall i :: 0 <= i < |seen| ==> LocalsNamed(s, t, seen[i].bc))
    && forall k :: 0 <= k < |s| && !AnyLocalByte(s, exports, k) ==> t[k] == s[k]
  }

  lemma VarargsIsBit(flags: byte)
    ensures Varargs(flags) <==> Bits.And(flags, 0x2) != 0
  {
    assert Bits.Pow2(1) == 2;
    Bits.AndOneBit(flags, 1);
  }

  /** What that says of the bytes: behind the next even address `code` there is one of the
      opcodes and a count; from the next multiple of four on, eight bytes each, every
      variable without the mask 2 in its flags has its number for a name. */
  lemma LocalsNamedMeans(s: bytes, t: bytes, bc: nat, code: nat, table: nat, j: nat)
    requires |t| == |s| && LocalsNamed(s, t, bc)
    requires bc <= code < bc + 2 && code % 2 == 0 && code + 3 <= table < code + 7 && table % 4 == 0
    requires code + 4 <= |s| && Get16(s, code) in SAFE_CREATE_OPCODES && j < s[code + 2] as int
    ensures table + 8 * j + 8 <= |s|
    ensures Bits.And(s[table + 8 * j + 4], 0x2) == 0 ==> Get32(t, table + 8 * j) == j + 1
  {
    hide Varargs, Get16, Get32;
    SameMultiple(bc, code, 2);
    SameMultiple(code + 3, table, 4);
    VarargsIsBit(s[table + 8 * j + 4]);
  }

  /** A byte of the `j`-th name of a table, unless that is a variable argument list. */
  predicate NameAt(s: bytes, table: nat, j: nat, k: int) {
    table + 8 * j + 8 <= |s| && table + 8 * j <= k < table + 8 * j + 4 && Bits.And(s[table + 8 * j + 4], 0x2) == 0
  }

  /** And nothing else is a name: only functions that start with one of the opcodes have
      any, as many as they count, when all of them fit. */
  lemma LocalByteIff(s: bytes, bc: nat, code: nat, table: nat, k: int)
    requires bc <= code < bc + 2 && code % 2 == 0 && code + 3 <= table < code + 7 && table % 4 == 0
    ensures LocalByte(s, bc, k) <==>
      && code + 4 <= |s| && Get16(s, code) in SAFE_CREATE_OPCODES && table + 8 * s[code + 2] as int <= |s|
      && exists j: nat :: j < s[code + 2] as int && NameAt(s, table, j, k)
  {
    hide Varargs, Get16;
    SameMultiple(bc, code, 2);
    SameMultiple(code + 3, table, 4);
    if LocalByte(s, bc, k) {
      var j: nat :| j < LocalCount(s, bc) && NameOfLocal(s, LocalTable(bc), j, k);
      VarargsIsBit(s[table + 8 * j + 4]);
      assert NameAt(s, table, j, k);
    }
    if code + 4 <= |s| && Get16(s, code) in SAFE_CREATE_OPCODES && table + 8 * s[code + 2] as int <= |s| {
      if j: nat :| j < s[code + 2] as int && NameAt(s, table, j, k) {
        VarargsIsBit(s[table + 8 * j + 4]);
        assert NameOfLocal(s, LocalTable(bc), j, k);
      }
    }
  }

  lemma SameMultiple(x: nat, y: nat, a: nat)
    requires a in {2, 4} && x <= y < x + a && y % a == 0
    ensures AlignUp(x, a) == y
  {
  }

  lemma TableAfterCode(bc: nat)
    ensures CodeAt(bc) + 3 <= LocalTable(bc) <= CodeAt(bc) + 6
  {
    AlignUpBounds(CodeAt(bc) + 3, 4);
  }

  /** No name lies where another function's preamble says how many there are. */
  lemma HeadIsNoName(s: bytes, a: nat, b: nat, k: int)
    requires CodeRoom(|s|, a) && CodeRoom(|s|, b) && SameOrApart(s, a, b) && CodeAt(b) <= k < CodeAt(b) + 3
    ensures !LocalByte(s, a, k)
  {
    TableAfterCode(a);
    TableAfterCode(b);
    hide LocalTable, CodeAt, Varargs;
    if LocalsFit(s, a) {
      forall j: nat | j < LocalCount(s, a)
        ensures !NameOfLocal(s, LocalTable(a), j, k)
      {
      }
    }
  }

  lemma SameTable(a: nat, b: nat)
    requires CodeAt(a) == CodeAt(b)
    ensures LocalTable(a) == LocalTable(b)
  {
  }

  /** No name lies among another variable's flags. */
  lemma FlagsAreNoName(s: bytes, a: nat, b: nat, i: nat)
    requires CodeRoom(|s|, a) && CodeRoom(|s|, b) && SameOrApart(s, a, b) && LocalsFit(s, b) && i < LocalCount(s, b)
    ensures !LocalByte(s, a, LocalTable(b) + LOCAL_SIZE * i + 4)
  {
    TableAfterCode(a);
    TableAfterCode(b);
    if CodeAt(a) == CodeAt(b) {
      SameTable(a, b);
    }
    hide LocalTable, CodeAt, Varargs;
    var k := LocalTable(b) + LOCAL_SIZE * i + 4;
    if LocalsFit(s, a) {
      forall j: nat | j < LocalCount(s, a)
        ensures !NameOfLocal(s, LocalTable(a), j, k)
      {
      }
    }
  }

  /** While names are replaced, a preamble still says how many variables there
      are, and which of them is the argument list. */
  lemma PreambleStays(s: bytes, t: bytes, exports: seq<GscExportData>, x: nat)
    requires PreamblesApart(s, exports) && |t| == |s| && x < |exports|
    requires forall k :: 0 <= k < |s| && !AnyLocalByte(s, exports, k) ==> t[k] == s[k]
    ensures LocalCount(t, exports[x].bc) == LocalCount(s, exports[x].bc)
    ensures LocalsFit(s, exports[x].bc) ==> forall i: nat :: i < LocalCount(s, exports[x].bc) ==>
      t[LocalTable(exports[x].bc) + LOCAL_SIZE * i + 4] == s[LocalTable(exports[x].bc) + LOCAL_SIZE * i + 4]
  {
    hide LocalByte, LocalCount, SameOrApart;
    var b := exports[x].bc;
    forall k | CodeAt(b) <= k < CodeAt(b) + 3
      ensures t[k] == s[k]
    {
      forall i | 0 <= i < |exports|
        ensures !LocalByte(s, exports[i].bc, k)
      {
        HeadIsNoName(s, exports[i].bc, b, k);
      }
    }
    SameCount(s, t, b);
    if LocalsFit(s, b) {
      forall i: nat | i < LocalCount(s, b)
        ensures t[LocalTable(b) + LOCAL_SIZE * i + 4] == s[LocalTable(b) + LOCAL_SIZE * i + 4]
      {
        forall y | 0 <= y < |exports|
          ensures !LocalByte(s, exports[y].bc, LocalTable(b) + LOCAL_SIZE * i + 4)
        {
          FlagsAreNoName(s, exports[y].bc, b, i);
        }
      }
    }
  }

  lemma SameCount(s: bytes, t: bytes, b: nat)
    requires |t| == |s| && CodeRoom(|s|, b) && forall k :: CodeAt(b) <= k < CodeAt(b) + 3 ==> t[k] == s[k]
    ensures LocalCount(t, b) == LocalCount(s, b)
  {
  }

  lemma FailsAlike(s: bytes, t: bytes, b: nat)
    requires |t| == |s| && CodeRoom(|s|, b) && LocalCount(t, b) == LocalCount(s, b)
    ensures RemoveLocals(t, b).Some? <==> LocalsFit(s, b)
  {
    hide LocalCount, LocalTable;
  }

  /** One more function: it fails exactly when its variables did not fit at the
      start, and otherwise keeps what was done. */
  lemma LocalsStep(s: bytes, t: bytes, exports: seq<GscExportData>, seen: seq<GscExportData>, x: nat)
    requires PreamblesApart(s, exports) && LocalsSet(s, t, exports, seen) && x < |exports|
    ensures RemoveLocals(t, exports[x].bc).Some? <==> LocalsFit(s, exports[x].bc)
    ensures RemoveLocals(t, exports[x].bc).Some? ==>
      LocalsSet(s, RemoveLocals(t, exports[x].bc).value, exports, seen + [exports[x]])
  {
    hide LocalCount, SameOrApart, LocalByte, AnyLocalByte, Varargs, LocalsNamed, RemoveLocals, LocalTable;
    var b := exports[x].bc;
    PreambleStays(s, t, exports, x);
    FailsAlike(s, t, b);
    if LocalsFit(s, b) {
      var v := RemoveLocals(t, b).value;
      forall k | 0 <= k < |s| && !AnyLocalByte(s, exports, k)
        ensures v[k] == t[k]
      {
        OtherByteStays(s, t, exports, x, k);
      }
      assert LocalsNamed(s, v, b) by {
        NowNamed(s, t, b);
      }
      forall i | 0 <= i < |seen|
        ensures LocalsNamed(s, v, seen[i].bc)
      {
        assert seen[i] in exports;
        StillNamed(s, t, b, seen[i].bc);
      }
      var more := seen + [exports[x]];
      assert forall i :: 0 <= i < |seen| ==> more[i] == seen[i];
    }
  }

  lemma OtherByteStays(s: bytes, t: bytes, exports: seq<GscExportData>, x: nat, k: nat)
    requires CodesFit(|s|, exports) && |t| == |s| && x < |exports| && k < |s| && !AnyLocalByte(s, exports, k)
    requires LocalsFit(s, exports[x].bc) && LocalCount(t, exports[x].bc) == LocalCount(s, exports[x].bc)
    requires forall i: nat :: i < LocalCount(s, exports[x].bc) ==>
      t[LocalTable(exports[x].bc) + LOCAL_SIZE * i + 4] == s[LocalTable(exports[x].bc) + LOCAL_SIZE * i + 4]
    ensures RemoveLocals(t, exports[x].bc).Some? && RemoveLocals(t, exports[x].bc).value[k] == t[k]
  {
    var b := exports[x].bc;
    assert !LocalByte(s, b, k);
    hide LocalCount, Varargs, AnyLocalByte, Get32;
    if LocalCount(s, b) != 0 {
      NumberedNames(t, LocalTable(b), LocalCount(t, b));
      forall j: nat | j < LocalCount(s, b)
        ensures !NameOfLocal(t, LocalTable(b), j, k)
      {
        assert !NameOfLocal(s, LocalTable(b), j, k);
      }
    }
  }

  lemma NowNamed(s: bytes, t: bytes, b: nat)
    requires |t| == |s| && CodeRoom(|s|, b) && LocalsFit(s, b) && LocalCount(t, b) == LocalCount(s, b)
    requires forall i: nat :: i < LocalCount(s, b) ==>
      t[LocalTable(b) + LOCAL_SIZE * i + 4] == s[LocalTable(b) + LOCAL_SIZE * i + 4]
    ensures RemoveLocals(t, b).Some? && LocalsNamed(s, RemoveLocals(t, b).value, b)
  {
    hide LocalCount, Varargs, Get32, LocalTable, CodeRoom, NumberLocals;
    if LocalCount(s, b) != 0 {
      NumberedNames(t, LocalTable(b), LocalCount(t, b));
    }
  }

  /** A function already done is numbered the same way when another, or its alias,
      is done. */
  lemma StillNamed(s: bytes, t: bytes, b: nat, a: nat)
    requires |t| == |s| && CodeRoom(|s|, a) && CodeRoom(|s|, b) && SameOrApart(s, a, b)
    requires LocalsNamed(s, t, a) && LocalsFit(s, b) && LocalCount(t, b) == LocalCount(s, b)
    requires forall i: nat :: i < LocalCount(s, b) ==>
      t[LocalTable(b) + LOCAL_SIZE * i + 4] == s[LocalTable(b) + LOCAL_SIZE * i + 4]
    ensures RemoveLocals(t, b).Some? && LocalsNamed(s, RemoveLocals(t, b).value, a)
  {
    if CodeAt(a) == CodeAt(b) {
      NowNamed(s, t, b);
      SameTable(a, b);
    } else if LocalCount(s, b) != 0 {
      TableAfterCode(a);
      TableAfterCode(b);
      NumberedNames(t, LocalTable(b), LocalCount(t, b));
      forall j: nat | j < LocalCount(s, a)
        ensures Get32(RemoveLocals(t, b).value, LocalTable(a) + LOCAL_SIZE * j) == Get32(t, LocalTable(a) + LOCAL_SIZE * j)
      {
        NameElsewhere(s, t, a, b, j);
      }
    }
  }

  lemma NameElsewhere(s: bytes, t: bytes, a: nat, b: nat, j: nat)
    requires |t| == |s| && CodeRoom(|s|, a) && CodeRoom(|s|, b) && SameOrApart(s, a, b) && CodeAt(a) != CodeAt(b)
    requires LocalsFit(s, a) && LocalsFit(s, b) && j < LocalCount(s, a) && LocalCount(s, b) != 0
    requires LocalCount(t, b) == LocalCount(s, b)
    ensures LocalTable(a) + LOCAL_SIZE * j + 4 <= |s|
    ensures Get32(NumberLocals(t, LocalTable(b), LocalCount(t, b)), LocalTable(a) + LOCAL_SIZE * j)
         == Get32(t, LocalTable(a) + LOCAL_SIZE * j)
  {
    hide Get16, Get32, LocalTable, CodeAt, Varargs, LocalCount, NumberLocals, NameOfLocal;
    TableAfterCode(a);
    TableAfterCode(b);
    NumberedNames(t, LocalTable(b), LocalCount(t, b));
    var p := LocalTable(a) + LOCAL_SIZE * j;
    forall k | p <= k < p + 4
      ensures NumberLocals(t, LocalTable(b), LocalCount(t, b))[k] == t[k]
    {
      forall i: nat | i < LocalCount(t, b)
        ensures !NameOfLocal(t, LocalTable(b), i, k)
      {
        NameInPreamble(t, LocalTable(b), i, k);
      }
    }
    SameField(NumberLocals(t, LocalTable(b), LocalCount(t, b)), t, p);
  }

  lemma NameInPreamble(t: bytes, at: nat, i: nat, k: int)
    requires at + LOCAL_SIZE * i + 4 < |t|
    ensures NameOfLocal(t, at, i, k) ==> at + LOCAL_SIZE * i <= k < at + LOCAL_SIZE * i + 4
  {
  }

  /** In whatever order the functions are visited: the pass succeeds exactly when
      all their variables fit, and then every local variable has its number and
      nothing else changed. */
  lemma {:induction false} EveryLocalNumbered(s: bytes, exports: seq<GscExportData>, order: seq<GscExportData>)
    requires PreamblesApart(s, exports) && forall i :: 0 <= i < |order| ==> order[i] in exports
    ensures CodesFit(|s|, order)
    ensures RemoveAll(s, order).Some? <==> forall i :: 0 <= i < |order| ==> LocalsFit(s, order[i].bc)
    ensures RemoveAll(s, order).Some? ==> LocalsSet(s, RemoveAll(s, order).value, exports, order)
    decreases |order|
  {
    hide LocalsFit, RemoveLocals, SameOrApart, AnyLocalByte, LocalsNamed;
    assert CodesFit(|s|, order);
    if order != [] {
      var n := |order| - 1;
      var front := order[..n];
      EveryLocalNumbered(s, exports, front);
      assert forall i :: 0 <= i < n ==> front[i] == order[i];
      assert order == front + [order[n]];
      var x :| 0 <= x < |exports| && exports[x] == order[n];
      if RemoveAll(s, front).Some? {
        LocalsStep(s, RemoveAll(s, front).value, exports, front, x);
      }
    }
  }

  ghost predicate AllLocalsFit(s: bytes, exports: seq<GscExportData>) {
    forall i :: 0 <= i < |exports| ==> CodeRoom(|s|, exports[i].bc) && LocalsFit(s, exports[i].bc)
  }

  /** A pass that stops has met a function whose variables do not fit; one that
      does not has seen all functions. */
  lemma AllSeenFit(s: bytes, exports: seq<GscExportData>, order: seq<GscExportData>, ok: bool)
    requires CodesFit(|s|, exports) && CodesFit(|s|, order) && forall i :: 0 <= i < |order| ==> order[i] in exports
    requires ok <==> forall i :: 0 <= i < |order| ==> LocalsFit(s, order[i].bc)
    requires ok ==> multiset(order) == multiset(exports)
    ensures ok <==> AllLocalsFit(s, exports)
  {
    hide LocalsFit, CodeRoom;
    if ok {
      forall i | 0 <= i < |exports|
        ensures LocalsFit(s, exports[i].bc)
      {
        assert exports[i] in multiset(exports);
        assert exports[i] in order;
      }
    } else {
      var i :| 0 <= i < |order| && !LocalsFit(s, order[i].bc);
      assert order[i] in exports;
    }
  }
}
