/** The compiled script format (data/gsc_data_t7.hpp): header fields, the export
    table, and the two tables of variable-length records. */
module GscFormat {
  import opened Bytes
  import opened Results
  import Bits

  const VMI_T7_1C: u64 := 0x1C000a0d43534780
  const HEADER_SIZE: nat := 72

  const INCLUDE_OFFSET: nat := 12
  const STRING_OFFSET: nat := 24
  const DEVBLOCK_STRING_OFFSET: nat := 28
  const EXPORT_OFFSET: nat := 32
  const IMPORT_OFFSET: nat := 36
  const NAME_OFFSET: nat := 52
  const STRING_COUNT: nat := 56
  const EXPORT_COUNT: nat := 58
  const IMPORT_COUNT: nat := 60
  const DEVBLOCK_STRING_COUNT: nat := 66
  const INCLUDE_COUNT: nat := 68

  const EXPORT_SIZE: nat := 20
  const IMPORT_SIZE: nat := 12
  const STRING_SIZE: nat := 8

  // ----- Exports: checksum, address, name, name_space, param_count, flags

  function ExportAt(table: nat, i: nat): nat { table + EXPORT_SIZE * i }

  function ExportAddress(s: bytes, e: nat): u32
    requires e + EXPORT_SIZE <= |s|
  {
    Get32(s, e + 4)
  }

  /** The flag T7GEF_PRIVATE. */
  predicate IsPrivate(flags: byte) { flags / 4 % 2 == 1 }

  function ExportPrivate(s: bytes, e: nat): bool
    requires e + EXPORT_SIZE <= |s|
  {
    IsPrivate(s[e + 17])
  }

  datatype NameLocated = NameLocated(name_space: u32, name: u32)

  function ExportName(s: bytes, e: nat): NameLocated
    requires e + EXPORT_SIZE <= |s|
  {
    NameLocated(Get32(s, e + 12), Get32(s, e + 8))
  }

  // ----- Imports: name, import_namespace, num_address, param_count, flags, offsets

  function ImportName(s: bytes, p: nat): NameLocated
    requires p + IMPORT_SIZE <= |s|
  {
    NameLocated(Get32(s, p + 4), Get32(s, p))
  }

  /** The flags T7GIF_DEV_CALL and T7GIF_FUNC_METHOD. */
  predicate IsDevCall(flags: byte) { flags / 0x10 % 2 == 1 }

  predicate IsMethod(flags: byte) { flags % 2 == 1 }

  /** Names are the same exactly when the eight bytes of them are, in whichever order a
      record has them: an export's name stands before its namespace as an import's does. */
  lemma SameNameIff(s: bytes, e: nat, t: bytes, p: nat)
    requires e + EXPORT_SIZE <= |s| && p + IMPORT_SIZE <= |t|
    ensures ExportName(s, e) == ImportName(t, p) <==> s[e + 8..e + 12] == t[p..p + 4] && s[e + 12..e + 16] == t[p + 4..p + 8]
  {
    hide Get32;
    Get32Injective(s, e + 8, t, p);
    Get32Injective(s, e + 12, t, p + 4);
  }

  /** Each flag is one bit of the mask the program tests. */
  lemma FlagsAreBits(flags: byte)
    ensures IsPrivate(flags) <==> Bits.And(flags, 0x4) != 0
    ensures IsDevCall(flags) <==> Bits.And(flags, 0x10) != 0
    ensures IsMethod(flags) <==> Bits.And(flags, 0x1) != 0
  {
    assert Bits.Pow2(2) == 4 && Bits.Pow2(4) == 0x10;
    Bits.AndOneBit(flags, 2);
    Bits.AndOneBit(flags, 4);
    Bits.AndOneBit(flags, 0);
  }

  // ----- Tables of records followed by four bytes per address

  datatype Kind = ImportRecord | StringRecord

  function Fixed(kind: Kind): nat {
    match kind
    case ImportRecord => IMPORT_SIZE
    case StringRecord => STRING_SIZE
  }

  function Addresses(s: bytes, p: nat, kind: Kind): nat
    requires p + Fixed(kind) <= |s|
  {
    match kind
    case ImportRecord => Get16(s, p + 8)
    case StringRecord => s[p + 4]
  }

  function RecordEnd(s: bytes, p: nat, kind: Kind): nat
    requires p + Fixed(kind) <= |s|
  {
    p + Fixed(kind) + 4 * Addresses(s, p, kind)
  }

  /** The records the program visits from `pos`; none when it stops with an error. */
  function Walk(s: bytes, pos: nat, count: nat, kind: Kind): Option<seq<nat>>
    decreases count
  {
    if count == 0 then Some([])
    else if pos + Fixed(kind) > |s| || RecordEnd(s, pos, kind) > |s| then None
    else
      match Walk(s, RecordEnd(s, pos, kind), count - 1, kind)
      case None => None
      case Some(r) => Some([pos] + r)
  }

  predicate Fits(s: bytes, p: nat, kind: Kind) {
    p + Fixed(kind) <= |s| && RecordEnd(s, p, kind) <= |s|
  }

  /** Consecutive records from `pos`, each inside the script. */
  ghost predicate Table(s: bytes, pos: nat, r: seq<nat>, kind: Kind) {
    && (r != [] ==> r[0] == pos)
    && (forall i :: 0 <= i < |r| ==> Fits(s, r[i], kind))
    && forall i :: 0 < i < |r| ==> r[i] == RecordEnd(s, r[i - 1], kind)
  }

  /** Where the walk ends. */
  function TableEnd(s: bytes, pos: nat, r: seq<nat>, kind: Kind): nat
    requires r == [] || Fits(s, r[|r| - 1], kind)
  {
    if r == [] then pos else RecordEnd(s, r[|r| - 1], kind)
  }

  lemma TableUnfolds(s: bytes, pos: nat, r: seq<nat>, kind: Kind)
    requires r != []
    ensures Table(s, pos, r, kind) <==>
      r[0] == pos && Fits(s, pos, kind) && Table(s, RecordEnd(s, pos, kind), r[1..], kind)
  {
    var t := r[1..];
    assert forall i :: 0 <= i < |t| ==> t[i] == r[i + 1];
    if r[0] == pos && Fits(s, pos, kind) && Table(s, RecordEnd(s, pos, kind), t, kind) {
      forall i | 0 <= i < |r|
        ensures Fits(s, r[i], kind)
      {
        if i > 0 {
          assert r[i] == t[i - 1];
        }
      }
      forall i | 0 < i < |r|
        ensures r[i] == RecordEnd(s, r[i - 1], kind)
      {
        assert r[i] == t[i - 1];
        if i > 1 {
          assert r[i - 1] == t[i - 2];
        }
      }
    }
  }

  /** The walk visits exactly the consecutive records of a table that lies in
      the script, and stops with an error exactly when there is no such table. */
  lemma {:induction false} WalkIsTable(s: bytes, pos: nat, count: nat, kind: Kind, r: seq<nat>)
    ensures Walk(s, pos, count, kind) == Some(r) <==> |r| == count && Table(s, pos, r, kind)
    decreases count
  {
    if count != 0 && r != [] {
      TableUnfolds(s, pos, r, kind);
      if Fits(s, pos, kind) {
        WalkIsTable(s, RecordEnd(s, pos, kind), count - 1, kind, r[1..]);
        assert r == [r[0]] + r[1..];
      }
    }
  }

  /** Records lie in table order without overlap. */
  lemma {:induction false} RecordsApart(s: bytes, pos: nat, r: seq<nat>, kind: Kind, i: nat, j: nat)
    requires Table(s, pos, r, kind) && i < j < |r|
    ensures RecordEnd(s, r[i], kind) <= r[j]
    decreases j
  {
    assert r[j] == RecordEnd(s, r[j - 1], kind);
    if i + 1 < j {
      RecordsApart(s, pos, r, kind, i, j - 1);
    }
  }

  /** Every record lies between the start of the table and its end. */
  lemma RecordInTable(s: bytes, pos: nat, r: seq<nat>, kind: Kind, i: nat)
    requires Table(s, pos, r, kind) && i < |r|
    ensures pos <= r[i] && RecordEnd(s, r[i], kind) <= TableEnd(s, pos, r, kind) <= |s|
  {
    if i > 0 {
      RecordsApart(s, pos, r, kind, 0, i);
    }
    if i < |r| - 1 {
      RecordsApart(s, pos, r, kind, i, |r| - 1);
    }
  }

  /** Rewrites that keep every address count keep every record boundary. */
  lemma SameCountsSameWalk(s: bytes, t: bytes, pos: nat, count: nat, kind: Kind, r: seq<nat>)
    requires |s| == |t| && Walk(s, pos, count, kind) == Some(r)
    requires forall i :: 0 <= i < |r| && Fits(s, r[i], kind) ==>
      Addresses(t, r[i], kind) == Addresses(s, r[i], kind)
    ensures Walk(t, pos, count, kind) == Some(r)
    ensures r == [] || (Fits(s, r[|r| - 1], kind) && Fits(t, r[|r| - 1], kind))
    ensures TableEnd(t, pos, r, kind) == TableEnd(s, pos, r, kind)
  {
    WalkIsTable(s, pos, count, kind, r);
    assert Table(t, pos, r, kind);
    WalkIsTable(t, pos, count, kind, r);
  }
}
